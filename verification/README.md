# OSCortex kernel: a verified model

A Dafny model of the state machines inside the OSCortex kernel, with proofs of what they
keep over every input, every step and every run. One module follows one component:

- **Memory.** `FrameAllocator` is the frame bitmap. `PhysMemory` is physical memory as a map
  from frame number to 512 words; `Machines` puts the two together. `X86Walk`, `X86Space`
  and `X86Life` say what the 4-level page-table code does as functions of memory and free
  frames and prove its properties; `X86PageTables` is that code, updating memory and bitmap
  in place, proved equal to those functions. `Aarch64Walk`, `Aarch64Space` and
  `Aarch64PageTables` do the same for the 3-level VMSAv8-64 tables and their block splitting.
  `PageTableLock` is the per-CPU re-entrant lock as a step machine.
- **Graphics.** `Framebuffer` (clipping, blits, panel channel order, back buffer),
  `PixelPath` (BGRA submit), `SurfaceTable` (slots, owners, double buffers), `Painter`
  (drawing order, skipped clear, a whole frame).
- **virtio.** `VringLayout` (legacy ring layout) and `Virtqueue` (the receive queue as driver
  and device steps, with the driver's own code in class `RxQueue`).
- **Files.** `Ustar` (the build's tar writer and the kernel's reader), `Ext2` and
  `Ext2Directory` (block pointers, whole-file reads, directories, paths), `Bytes`, `Utf8Text`.
- **Policies and interpreters.** `CrashRecovery`, `PackageCache`, `Isolates`, `Leb128`,
  `WasmSandbox`, `A64Emitter`.

How the model reads the source:

- Integers are unbounded; every width that matters is written out: 16-bit ring indices wrap
  at 2^16, ids wrap at 2^32, sums and products of addresses and sizes wrap at 2^64 as they do in
  the release build, `dropped` saturates at 2^64 - 1, `i32` casts and saturating adds
  are explicit, WASM values are the integers from -2^31 to 2^31 - 1 with wrapping operations, and
  pixel, LEB128 and A64 arithmetic is on bit-vectors. Page-table words are numbers taken apart
  with `/` and `%`.
- A panic or out-of-range index in the source is a result of its own (`Panicked`, `Crashed`),
  not a precondition; so is a read past mapped memory (`Faulted`).
- Locks that are tried and may fail, the clock, the device, the firmware memory map, process
  group leaders and the kernel's root table are parameters or steps.
- Concurrent code is a set of steps, one per atomic access or lock section, and its theorems
  quantify over every run. Code that runs to completion under one lock is a method proved
  equal to a function, and the theorems are about that function. A frame takes the table's
  lock three times; what other cores do in between is a parameter of `Painter.RenderFrame`.
- `ghost` fields and the recorded parts of step states (offered, completed, uses, windows,
  traffic) affect no operation's result; they only say what has happened.

Where the code does something its description does not say, the model follows the code and
states the difference:

- Reading page rights back on aarch64 reports every user page as writable, because the bit
  it looks at is set for read-only pages as well; the report is right exactly for writable pages
  (`Aarch64Space.MapReadsBack`).
- `total` counts a frame once per region that contains it, so the allocator's accounting is
  right exactly when no two regions share a frame (`FrameAllocator.MarksCountFrames`).
- A frame can show what the screen held before: when a surface resized past its buffer
  suppresses the clear of a screen it then does not draw (`Painter.ResizedPastBuffer`), and when
  the surface that suppressed the clear is gone by the time of drawing
  (`Painter.DestroyedBetween`). What each pixel then shows is stated exactly in
  `Painter.FramePixel`. Painting looks at neither the `visible` flag nor the clip rectangle.
- An upload to a surface without a back buffer panics exactly when a resize outgrew its front
  buffer (`SurfaceTable.UploadPanics`).
- The size check of a submit is on a product that wraps, and looks at the stride and not at the
  width. A stride shorter than a row passes it and reads past the payload
  (`PixelPath.ShortStride`), and so does one so long that the product wraps
  (`PixelPath.WrappedStride`); a submit depends on its payload alone exactly when the product does
  not wrap, and a row fits its stride or the payload reaches past the last row
  (`SurfaceTable.SubmitDependsOnPayload`).
- Unmapping a range takes any addresses. It keeps the frames of the space exactly when no page of
  the range in the kernel half is mapped (`X86Life.RangeConserves`); otherwise the kernel loses the
  mapping, and its frame is handed to the allocator (`X86Life.KernelRangeHarms`).
- A reserved range whose rounded end passes 2^64 reserves only what lies below the wrapped end
  (`FrameAllocator.FrameBitmap.ReserveRange`).
- Surface ids repeat only after 2^32 - 1 creates, and then exactly when the id handed out is
  still in use (`SurfaceTable.WrappedIdsDistinct`), which does happen (`SurfaceTable.IdsCollide`).
- Between marking an isolate dead and removing its inbox another spawn may run; it finds room
  for its inbox exactly when live isolates and those being torn down, less those without one,
  leave a slot (`Isolates.SpawnFindsInbox`), and otherwise lives without an inbox
  (`Isolates.SpawnInsideKillMisses`). Isolate ids repeat after 2^32 - 1 spawns, and what a spawn
  then keeps is stated exactly in `Isolates.WrappedSpawn`; two live isolates of one id do come
  about (`Isolates.IdsCollide`).
- An archive entry with an empty name ends the archive for the reader
  (`Ustar.EmptyNameEndsArchive`); a name is kept up to 100 bytes, its first NUL, and not at all
  when that is not text (`Ustar.FindsAsRead`). The writer panics on a file of 8^11 bytes or more.
- Resolving a path scans whatever inode it reaches as a directory, so `/file/x` can resolve
  (`Ext2Directory.FileReadAsDirectory`); it agrees with the directory tree exactly as stated in
  `Ext2Directory.ResolvesPath`.
- Cache uses within one clock tick are not ordered, so a full cache can evict the later of two
  (`PackageCache.TieEvictsTheLaterUsed`).
- `VringLayout` leaves out the `used_event` word when it aligns the used ring; for every
  accepted queue size this gives the place the legacy layout asks for
  (`VringLayout.LayoutIsLegacy`).
- WASM opcodes 0x75 and 0x76 are bound opposite to section 5.4.5 of WebAssembly Core 1.0; the
  model keeps the code's binding. An `end` ends the function even where it closes an inner block
  (`WasmSandbox.EndsEarly`).

## Model

| member | source | states |
|---|---|---|
| `FrameAllocator.TrailingZeros` | kernel/src/mm/frame_allocator.rs:59-73 | the index found is set and no lower bit is |
| `FrameAllocator.MarksCountFrames` | kernel/src/mm/frame_allocator.rs:122-135 | counting a mark per frame and region never undercounts, and is exact if and only if no two regions share a frame |
| `FrameAllocator.FramesAreGiven` | kernel/src/mm/frame_allocator.rs:122-135 | the frames marked for a region, byte by byte: above 1 MiB, below 4 GiB, ending inside the region with its wrapping end, a partly usable first frame included |
| `FrameAllocator.FrameBitmap.InitFromRegions` | kernel/src/mm/frame_allocator.rs:122-135 | a frame is free if and only if some region gives it: it ends inside the region's bytes, does not lie before them, and lies between 1 MiB and 4 GiB; set bits + used == total if and only if the regions are frame-disjoint |
| `FrameAllocator.FrameBitmap.ReserveRange` | kernel/src/mm/frame_allocator.rs:146-163 | exactly the frames that touch the byte range leave the free set, or, when the rounded end wraps, exactly those from the range's first frame up to the wrapped end; counts stay exact; twice is once |
| `FrameAllocator.FrameBitmap.Alloc` | kernel/src/mm/frame_allocator.rs:59-73 | hands out the least free frame, an address from 1 MiB up to 4 GiB, and none exactly when nothing is free |
| `FrameAllocator.FrameBitmap.FindRun` | kernel/src/mm/frame_allocator.rs:75-103 | the run found is the lowest of that length; none only when no such run exists |
| `FrameAllocator.FrameBitmap.AllocContiguous` | kernel/src/mm/frame_allocator.rs:75-103 | takes the lowest run of the requested length and only it; None exactly for count 0 or when no run exists |
| `FrameAllocator.FrameBitmap.Free` | kernel/src/mm/frame_allocator.rs:105-115 | sets one bit; the accounting survives exactly when the frame is usable or past the managed span |
| `FrameAllocator.FrameBitmap.Perform` | kernel/src/mm/frame_allocator.rs:59-115 | what an operation hands out nobody holds, and held plus free frames are conserved |
| `FrameAllocator.FrameBitmap.PerformAll` | kernel/src/mm/frame_allocator.rs:59-115 | over every run that frees only held frames, set bits + used == total and the starting free set is partitioned into held and free |
| `FrameAllocator.SameFreeSameWords` | kernel/src/mm/frame_allocator.rs:32-37 | the free set determines every word of the bitmap |
| `X86Walk.EntryFields` | kernel/src/mm/paging.rs:117-148 | frame number and the present, writable, huge and no-execute bits of a built entry are those asked for |
| `X86Walk.EntryUser` | kernel/src/mm/paging.rs:117-133 | an entry's user bit is the one asked for, whatever the other flags and the address |
| `X86Walk.UserWord` | kernel/src/mm/paging.rs:1021-1034 | the word of a user page bit by bit: the frame, present, user, writable as asked, and no-execute unless executable |
| `X86Walk.SamePage` | kernel/src/mm/paging.rs:314-322 | two addresses have the same four table indices if and only if they are on the same page |
| `X86Walk.WalkOnTree` | kernel/src/mm/paging.rs:350-399 | on a well-formed tree the walk finds a page exactly when the three tables on its path exist and the leaf is present |
| `X86Walk.LeafWrite` | kernel/src/mm/paging.rs:334-335 | writing one leaf word keeps the tree and moves the translation of that page only |
| `X86Walk.HwIsLeaf` | kernel/src/mm/paging.rs:485-495 | the processor's walk, which narrows the rights at every level, grants exactly what the leaf word says, because every table above is entered with all rights |
| `X86Walk.TranslateIsGrant` | kernel/src/mm/paging.rs:350-399 | the frame and rights the kernel reads back of a page are those the processor grants there, and none exactly when it grants none |
| `X86Walk.NewTable` | kernel/src/mm/paging.rs:485-495 | hanging a zeroed table below an absent entry keeps the tree well formed |
| `X86Walk.KernelHalfUnchanged` | kernel/src/mm/paging.rs:293-307 | what is done inside a process's own frames moves no kernel-half translation |
| `X86Space.MapRefinesFlatMap` | kernel/src/mm/paging.rs:314-346 | mapping changes the translation and flags of exactly the named page; out of memory at any level changes none; no other frame and no kernel entry is written; it never panics on a well-formed tree |
| `X86Space.MapSucceeds` | kernel/src/mm/paging.rs:314-346 | a mapping succeeds if and only if there is a free frame for each table on its path that is missing |
| `X86Space.UpdateOnTree` | kernel/src/mm/paging.rs:401-435 | changing rights keeps the frame and the user bit, sets the rights asked for and moves no other page; fails without effect exactly when the page is absent |
| `X86Space.UnmapOnTree` | kernel/src/mm/paging.rs:497-525 | unmapping returns the page's frame and removes that translation alone; fails without effect exactly when absent |
| `X86Space.MapEveryAddress` | kernel/src/mm/paging.rs:314-346 | mapping a user page moves the walk of that page and of no other address of either half, and the shared kernel tables stay as they were |
| `X86Space.ChangeEveryAddress` | kernel/src/mm/paging.rs:401-525 | the same for changing the rights of a mapped page and for unmapping it |
| `X86Space.MapGrants` | kernel/src/mm/paging.rs:314-346 | what the processor grants after a mapping: that frame, from user mode, with the rights asked for, and no other grant moves; none moves when it fails |
| `X86Space.ChangeGrants` | kernel/src/mm/paging.rs:401-525 | after a rights change: the same frame from user mode with exactly the rights asked for; after an unmapping: nothing at that page; no other grant moves |
| `X86Life.NewSpaceLives` | kernel/src/mm/paging.rs:293-307 | a new root is an empty space owning one frame, with the kernel half copied and nothing else written |
| `X86Life.DemandKeeps` | kernel/src/mm/paging.rs:906-977 | every fault, resolved or failed, keeps owned plus free frames equal to the starting stock; a resolved anonymous fault leaves its page mapped |
| `X86Life.DemandResolves` | kernel/src/mm/paging.rs:950-972 | a fault in the anonymous window that is not a protection fault is resolved if and only if the page is there or there are frames for it and for each missing table |
| `X86Life.DemandGrants` | kernel/src/mm/paging.rs:906-977 | a fault in the anonymous window: refused on a protection fault or without a frame, done at once when the page is there, else resolved by the least free frame, zeroed, which the process may read, write and execute; no other grant moves |
| `X86Life.MirrorGrants` | kernel/src/mm/paging.rs:935-949 | a fault in the mirror window of a mapped page is resolved if and only if there are frames for the missing tables, and grants the mirrored page's frame with that page's write and execute rights |
| `X86Life.DemandRefuses` | kernel/src/mm/paging.rs:906-977 | every other fault is refused without effect: protection faults, addresses outside both windows, and mirror addresses with nothing to mirror |
| `X86Life.UnmapKeeps` | kernel/src/mm/paging.rs:1149-1180 | unmapping any range, at any addresses, of whose kernel-half pages none is mapped keeps owned plus free frames equal to the starting stock and writes no frame outside it |
| `X86Life.RangeUnmaps` | kernel/src/mm/paging.rs:1149-1180 | after unmapping a range no user page of it is mapped, every other one walks as before, and the free frames grow by exactly the frames those pages were mapped to |
| `X86Life.RangePages` | kernel/src/mm/paging.rs:1149-1157 | the pages of a range are those of its bytes, from the first byte's page to the last byte's |
| `X86Life.NoPages` | kernel/src/mm/paging.rs:1149-1157 | an empty range, and one whose rounded end wraps, unmap nothing |
| `X86Life.RangeConserves` | kernel/src/mm/paging.rs:1149-1180 | where the tables of its kernel-half pages are the kernel's own, unmapping a range keeps the stock, every frame outside it and the kernel words if and only if none of those pages is mapped |
| `X86Life.KernelRangeHarms` | kernel/src/mm/paging.rs:1149-1180 | a space and a one-page range in the kernel half whose unmapping frees a frame that was never of the stock |
| `X86Life.KernelPageFreed` | kernel/src/mm/paging.rs:1149-1180 | for any mapped kernel-half page, the frame it is mapped to joins the free frames |
| `X86Life.TeardownFreesAll` | kernel/src/mm/paging.rs:440-482 | teardown frees every frame of the tree, tables and pages, and no other, with as many frees as there are frames, so each once |
| `X86Life.NoFrameLeaks` | kernel/src/mm/paging.rs:293-307 | creation, any run of faults and range unmappings, failed ones included, that unmap no page of the kernel's, and teardown return exactly the free frames it started with, and no other frame is written in between |
| `X86PageTables.EnsureNextTable` | kernel/src/mm/paging.rs:485-495 | the in-place code does to memory and bitmap what the table-ensuring function says |
| `X86PageTables.MapPage` | kernel/src/mm/paging.rs:314-346 | the in-place level loop is the recursive mapping function, failures and panics included |
| `X86PageTables.UpdateUserPageFlags` | kernel/src/mm/paging.rs:401-435 | in place, the rights change proved in UpdateOnTree and ChangeGrants |
| `X86PageTables.UnmapUserPage` | kernel/src/mm/paging.rs:497-525 | in place, the unmapping proved in UnmapOnTree |
| `X86PageTables.AllocUserPml4` | kernel/src/mm/paging.rs:293-307 | in place, the creation of NewSpaceLives; None exactly when no frame is free |
| `X86PageTables.DemandPage` | kernel/src/mm/paging.rs:906-977 | in place, the fault handling of DemandKeeps, DemandGrants and MirrorGrants |
| `X86PageTables.UnmapUserRange` | kernel/src/mm/paging.rs:1149-1180 | in place, the page loop of UnmapKeeps and RangeUnmaps with its wrapping end, each unmapped frame freed |
| `X86PageTables.FreeUserPml4` | kernel/src/mm/paging.rs:440-482 | the nested freeing loops return the free set to the starting stock, with one free per frame |
| `X86PageTables.AddressSpaceLife` | kernel/src/mm/paging.rs:906-977 | over a whole life whose ranges unmap no page of the kernel's, every word of the bitmap, `used` and `total` are what they were |
| `Aarch64Walk.SplitGib` | kernel/src/mm/paging.rs:630-660 | a 1 GiB block and the 512 blocks it is split into translate every address alike, address and attributes |
| `Aarch64Walk.SplitMib` | kernel/src/mm/paging.rs:630-660 | a 2 MiB block and the 512 pages it is split into translate every address alike |
| `Aarch64Space.FreshRoot` | kernel/src/mm/paging.rs:595-610 | a copy of a kernel table of blocks and empty entries is a well-formed tree of its own |
| `Aarch64Space.EnsureOnTree` | kernel/src/mm/paging.rs:630-660 | splitting a block into a new table moves the hardware translation of no address |
| `Aarch64Space.MapOnTree` | kernel/src/mm/paging.rs:690-711 | mapping moves the hardware translation of exactly one page, none when out of memory, and writes only this root's own tables |
| `Aarch64Space.MapSucceeds` | kernel/src/mm/paging.rs:690-711 | a mapping succeeds if and only if there is a free frame for each table that is missing, split blocks included |
| `Aarch64Space.MapReadsBack` | kernel/src/mm/paging.rs:745-765 | address and execute right read back as mapped; the write right reads back right if and only if the page is writable |
| `Aarch64Space.MapGrants` | kernel/src/mm/paging.rs:663-711 | what the processor sees of a mapped page, by its bits: the address asked for, access flag, inner shareable, normal memory, never executable at EL1, write and execute rights as asked; no other translation moves |
| `Aarch64Space.UpdateGrants` | kernel/src/mm/paging.rs:767-785 | a rights change sets AP and UXN as asked and keeps the address and every other attribute bit; no other translation moves |
| `Aarch64Space.UnmapOnTree` | kernel/src/mm/paging.rs:790-800 | returns the page's address and removes that translation alone |
| `Aarch64Space.UpdateOnTree` | kernel/src/mm/paging.rs:767-785 | rewrites one descriptor at the same address and moves no other translation |
| `Aarch64Space.KernelRootKept` | kernel/src/mm/paging.rs:595-800 | over any run of mappings, rights changes and unmappings, at any addresses, in a root copied from the kernel's, the kernel root's words and every translation through it never change |
| `Aarch64PageTables.FillPieces` | kernel/src/mm/paging.rs:640-655 | the 512-entry loop fills the table with the pieces of the block |
| `Aarch64PageTables.EnsureChild` | kernel/src/mm/paging.rs:630-660 | in place, the table-ensuring and splitting of EnsureOnTree |
| `Aarch64PageTables.MapPageIn` | kernel/src/mm/paging.rs:690-711 | in place, the mapping of MapOnTree and MapGrants |
| `Aarch64PageTables.UpdateUserPageFlags` | kernel/src/mm/paging.rs:767-785 | in place, the rights change of UpdateOnTree and UpdateGrants |
| `Aarch64PageTables.UnmapPage` | kernel/src/mm/paging.rs:790-800 | in place, the unmapping of UnmapOnTree |
| `Aarch64PageTables.AllocRoot` | kernel/src/mm/paging.rs:595-610 | takes the least free frame and seeds it with the kernel's level-1 table, changing nothing else |
| `PageTableLock.StepKeeps` | kernel/src/mm/paging.rs:53-114 | every atomic step of every CPU keeps depth, guards, lock holder and interrupt mask consistent |
| `PageTableLock.MutualExclusion` | kernel/src/mm/paging.rs:84-114 | in every state of every run at most one CPU has live guards, and it is the one that holds the lock |
| `PageTableLock.NestedNeverWaits` | kernel/src/mm/paging.rs:95-113 | a CPU that holds the lock is never waiting for it, at any nesting depth |
| `PageTableLock.OutsideIsClean` | kernel/src/mm/paging.rs:53-72 | outside the section a CPU's depth is 0 and it does not hold the lock |
| `PageTableLock.IrqRestored` | kernel/src/mm/paging.rs:53-86 | from outermost entry to outermost drop, whatever nests between, the interrupt state is the one it entered with |
| `PageTableLock.MaskedInside` | kernel/src/mm/paging.rs:84-86 | from a CPU's entry until it is outside again its interrupts are masked |
| `PageTableLock.NestedLeavesAll` | kernel/src/mm/paging.rs:53-114 | from anywhere in the section a nested entry and its drop go through without waiting and leave the whole state as it was |
| `PageTableLock.OuterLeavesAll` | kernel/src/mm/paging.rs:53-114 | an outermost entry to a free lock takes it, and its drop gives lock, depth and interrupts back as they were |
| `PageTableLock.SomeoneMoves` | kernel/src/mm/paging.rs:84-114 | no deadlock: while some CPU is not outside, some CPU can move on |
| `Framebuffer.ClipIsIntersection` | kernel/src/drivers/fb.rs:376-383 | the clamped saturating interval is the exact intersection with the screen |
| `Framebuffer.BlitShowsSource` | kernel/src/drivers/fb.rs:149-159 | a blitted pixel carries the source's R, G and B at the panel's own channel positions, for every format |
| `Framebuffer.Screen.FillRect` | kernel/src/drivers/fb.rs:367-408 | exactly the clipped rectangle's cells change, to the colour |
| `Framebuffer.Screen.Blit` | kernel/src/drivers/fb.rs:550-618 | exactly the clipped rectangle's cells change, each to its own source pixel; a short source draws nothing |
| `Framebuffer.Screen.SwapBuffers` | kernel/src/drivers/fb.rs:652-674 | every panel word becomes the packed back-buffer word; nothing changes when not double-buffered |
| `PixelPath.OnePassRefines` | kernel/src/compositor/mod.rs:588-638 | for every frame and every stride that is a multiple of 4 and holds a row, the one-pass submit equals re-pack then byte exchange |
| `PixelPath.AcceptedFits` | kernel/src/compositor/mod.rs:614-619 | an accepted payload holds every pixel read if and only if the size product does not wrap, and a row fits its stride or the payload reaches past the last row |
| `PixelPath.FitsIsInBounds` | kernel/src/compositor/mod.rs:624-638 | every pixel read, at its wrapped address, is inside the payload if and only if the last one is without wrapping |
| `PixelPath.ShortStride` | kernel/src/compositor/mod.rs:614-619 | a concrete stride, accepted with four bytes, for which the reads pass the payload |
| `PixelPath.WrappedStride` | kernel/src/compositor/mod.rs:614-619 | a concrete stride that holds a row and is accepted with no payload at all, because the size product wraps to zero |
| `PixelPath.BeyondShows` | kernel/src/compositor/mod.rs:624-638 | when reads pass the payload, two memories that agree on the payload give two frames |
| `PixelPath.BeyondUnread` | kernel/src/compositor/mod.rs:624-638 | when they do not, what lies after the payload makes no difference |
| `PixelPath.SubmitPixels` | kernel/src/compositor/mod.rs:624-638 | every pixel of the buffer is written from the bytes read, so none of an older frame is left |
| `SurfaceTable.AlwaysClean` | kernel/src/compositor/mod.rs:159-267 | in every state of every run a free slot holds no owner, buffer, pending or presented flag, and no group owns more than eight surfaces |
| `SurfaceTable.IdsStayDistinct` | kernel/src/compositor/mod.rs:183-213 | live surfaces have distinct nonzero ids while at most 2^32 - 1 were created |
| `SurfaceTable.WrappedIdsDistinct` | kernel/src/compositor/mod.rs:183-213 | beyond that, a create keeps ids distinct if and only if its id is not in use |
| `SurfaceTable.IdsCollide` | kernel/src/compositor/mod.rs:183-213 | a run of 2^32 creates and 2^32 - 2 destroys after which two live surfaces have id 1 |
| `SurfaceTable.OthersUntouched` | kernel/src/compositor/mod.rs:226-267 | no step of a group, and no render, changes geometry, owner or newest frame of another group's surface |
| `SurfaceTable.EditDenied` | kernel/src/compositor/mod.rs:226-543 | for every operation and table: denied if and only if the caller is a group other than the owner; no such surface if and only if the id is not there; a bad size refused before either |
| `SurfaceTable.EditMeans` | kernel/src/compositor/mod.rs:226-543 | an owner's or the kernel's move, depth, geometry, flip, present, submit, upload or destroy gives exactly the stated field values and buffers, and no other slot changes; only submits and uploads can fail |
| `SurfaceTable.SubmitTaken` | kernel/src/compositor/mod.rs:597-646 | a submit by the owner or the kernel is taken if and only if the payload passes the wrapped size check and what it reads is mapped |
| `SurfaceTable.CreateMeans` | kernel/src/compositor/mod.rs:159-220 | a create succeeds if and only if the size is accepted, the group has fewer than eight surfaces and a slot is free; it makes a black, unpresented surface of that size under the next id in the first free slot, and changes nothing else |
| `SurfaceTable.SubmitThenRender` | kernel/src/compositor/mod.rs:597-646 | an accepted submit comes from the owner or the kernel, and the next render brings exactly the pixels it read to the front, presented; they are the payload's own when the reads stay inside it |
| `SurfaceTable.SubmitDependsOnPayload` | kernel/src/compositor/mod.rs:597-646 | an accepted submit never faults and depends on its payload alone if and only if the size product does not wrap, and a row fits its stride or the payload reaches past the last row; else it can fault, and two memories give two frames |
| `SurfaceTable.UploadPanics` | kernel/src/compositor/mod.rs:502-543 | an upload of the right size panics if and only if it goes to a front buffer smaller than the surface; otherwise every pixel of its target is the payload's word, and surfaces whose buffers hold their area never panic |
| `SurfaceTable.UploadedPixel` | kernel/src/compositor/mod.rs:529-536 | an uploaded pixel holds the payload's red, green, blue and alpha from its lowest byte up |
| `SurfaceTable.FlipTwice` | kernel/src/compositor/mod.rs:464-495 | flipping shows the other buffer, and flipping twice the first one again |
| `SurfaceTable.DestroyFrees` | kernel/src/compositor/mod.rs:248-267 | a destroyed surface's id is not found any more, its slot is free and no other slot moved |
| `SurfaceTable.AlwaysRoomy` | kernel/src/compositor/mod.rs:336-361 | without a geometry change to a larger area every live surface keeps buffers for its whole area |
| `SurfaceTable.Compositor.CreateSurface` | kernel/src/compositor/mod.rs:159-220 | the counting and searching loops give the table and outcome of the create function, every error included |
| `SurfaceTable.Compositor.EditSurface` | kernel/src/compositor/mod.rs:226-543 | lookup, permission and change as the edit function says, short and wrapping strides and outgrown buffers included; on any error the table is unchanged |
| `SurfaceTable.Compositor.SubmitBgra` | kernel/src/compositor/mod.rs:597-646 | the back buffer has exactly the surface's size and the pixels read, whatever it was before; payloads short of the wrapped size are refused and reads past mapped memory fault |
| `SurfaceTable.Compositor.UploadRgba` | kernel/src/compositor/mod.rs:502-543 | the pixel loop writes back buffer or front buffer as the upload function says, panics included |
| `SurfaceTable.Compositor.FlipAll` | kernel/src/compositor/mod.rs:940-949 | exactly the pending back buffers come to the front |
| `Painter.DrawOrder` | kernel/src/compositor/mod.rs:996-1013 | the insertion sort yields every live slot once, in ascending (z, slot) |
| `Painter.Top` | kernel/src/compositor/mod.rs:1015-1023 | the reference: the covering presented slot with greatest (z, slot), or none |
| `Painter.CellShowsTop` | kernel/src/compositor/mod.rs:1015-1023 | drawing in that order leaves at every pixel the topmost covering surface, else what was there |
| `Painter.ClearNotNeeded` | kernel/src/compositor/mod.rs:971-992 | when the clear is skipped and buffers suffice, every visible pixel is covered |
| `Painter.SpansEveryPixel` | kernel/src/compositor/mod.rs:977-987 | a presented surface counts as spanning the screen if and only if its rectangle holds every visible pixel |
| `Painter.PaintSurfaces` | kernel/src/compositor/mod.rs:1015-1023 | the draw loop is the layering of the order over the old contents |
| `Painter.ClearUncovered` | kernel/src/compositor/mod.rs:971-992 | the screen is cleared if and only if the clear is not bypassed and no presented surface spans the screen |
| `Painter.DrawAll` | kernel/src/compositor/mod.rs:993-1023 | with any buffers: topmost drawable surface, else background if cleared, else the old contents |
| `Painter.FramePixel` | kernel/src/compositor/mod.rs:971-1023 | a pixel shows the picture of the table drawn if and only if a drawable surface covers it, the screen was cleared, or it showed the background already |
| `Painter.StaleIsWrong` | kernel/src/compositor/mod.rs:971-1023 | when the table tested suppresses the clear and the table drawn covers nothing, every pixel keeps what it held, the right one only where that was the background |
| `Painter.ResizedPastBuffer` | kernel/src/compositor/mod.rs:336-361 | a run after which the clear is skipped and nothing is drawn, because a surface was resized past its buffer |
| `Painter.DestroyedBetween` | kernel/src/compositor/mod.rs:971-1023 | a run with sufficient buffers in which the surface that suppresses the clear is destroyed before the drawing |
| `Painter.RenderFrame` | kernel/src/compositor/mod.rs:933-1032 | a frame in its three lock sections with any operations of other cores in between: every panel pixel is as FramePixel says, and all show the packed picture of the table drawn when buffers suffice and the screen was cleared or is still spanned |
| `Painter.PayloadOnPanel` | kernel/src/compositor/mod.rs:597-1032 | after an accepted submit was rendered, each topmost pixel of the surface on the panel carries the red, green and blue bytes its place has in the payload, at the panel's channel positions |
| `Painter.RunsAreSufficient` | kernel/src/compositor/mod.rs:159-495 | in every run without a geometry change to a larger area, every frame has sufficient buffers |
| `VringLayout.AcceptsPowersOfTwo` | kernel/src/drivers/common/vring.rs:27-30 | the size test accepts exactly the powers of two |
| `VringLayout.MaskIsRemainder` | kernel/src/drivers/common/vring.rs:50-60 | for each accepted size, masking an index is taking its remainder |
| `VringLayout.LayoutIsLegacy` | kernel/src/drivers/common/vring.rs:27-48 | for every accepted size the used ring is where the legacy layout puts it, areas do not overlap, and the pages are enough and not one too many |
| `VringLayout.EntriesInBounds` | kernel/src/drivers/common/vring.rs:50-60 | every ring access of any free-running index stays in its own area |
| `Virtqueue.StepKeeps` | kernel/src/drivers/virtio_net.rs:122-190 | every driver and device step, several completions announced at once included, keeps indices, rings and ownership consistent |
| `Virtqueue.ExactlyOnePlace` | kernel/src/drivers/virtio_net.rs:122-190 | in every state of every run, over any number of 16-bit wraps, each posted descriptor is in exactly one place and no other descriptor is anywhere |
| `Virtqueue.NoUnreadOverwritten` | kernel/src/drivers/virtio_net.rs:122-163 | no ring write, by driver or device, lands on an entry the other side has not read |
| `Virtqueue.CompletionsDelivered` | kernel/src/drivers/virtio_net.rs:165-190 | what was received is a prefix of what was completed, and a poll finds something exactly when the rest is not empty |
| `Virtqueue.RxQueue.PostRxBuffers` | kernel/src/drivers/virtio_net.rs:122-151 | the loop offers buffers 0, 1, 2, … up to the queue size or 64, each once and in order, as enabled protocol steps |
| `Virtqueue.RxQueue.Offer` | kernel/src/drivers/virtio_net.rs:153-163 | entry write and index publication are two enabled protocol steps |
| `Virtqueue.RxQueue.PollQueueUsed` | kernel/src/drivers/virtio_net.rs:165-190 | whatever the device does before each read, returns the oldest unreceived completion, and none only when at the last look there is none |
| `Virtqueue.RxQueue.DeviceStep` | kernel/src/drivers/virtio_net.rs:165-190 | the device's reads and writes of ring memory are its protocol steps, done exactly when enabled |
| `Bytes.OctalRoundTrip` | kernel/src/fs/initramfs.rs:32-41 | parsing an octal field written with enough digits gives the number |
| `Bytes.OctalTextFits` | kernel/build.rs:160-161 | octal text fills its field exactly when the number has no more digits, and is then the field's digits |
| `Bytes.ParseStops` | kernel/src/fs/initramfs.rs:32-41 | a written number followed by a NUL or a space is read back, whatever follows |
| `Bytes.ParseSkips` | kernel/src/fs/initramfs.rs:32-41 | a byte that is neither digit nor end is passed over |
| `Utf8Text.Utf8IsText` | kernel/src/fs/initramfs.rs:54-56 | the text check accepts exactly the UTF-8 encodings of sequences of Unicode scalar values |
| `Bytes.ParseOctalField` | kernel/src/fs/initramfs.rs:32-41 | the loop is the recursive octal reading, stopping at NUL or space and skipping other bytes |
| `Ustar.BuildTar` | kernel/build.rs:136-144 | the archive is the entries' records in order and two zero blocks; it panics if and only if some file has 8^11 bytes or more |
| `Ustar.Append` | kernel/build.rs:146-187 | one record: header with every field in place, data, padding to a block; or the panic of copying a size that does not fit its field |
| `Ustar.HeaderReadsBack` | kernel/build.rs:146-187 | for every entry of accepted size the reader gets the size and type back and the name as kept: cut at 100 bytes and at a NUL, empty when not text; the header ends the archive if and only if the name is empty or starts with a NUL |
| `Ustar.FixedFields` | kernel/build.rs:154-180 | mode, owner, group, time, magic and version are at their standard places whatever the entry, and size and checksum end as the standard has them |
| `Ustar.ZeroElsewhere` | kernel/build.rs:147-180 | every byte of a header that no field holds is zero |
| `Ustar.RecordIs` | kernel/build.rs:181-187 | a record is header, data and fewer than 512 zeros, a multiple of 512 bytes |
| `Ustar.ArchiveIs` | kernel/build.rs:136-144 | an archive is its records in order and 1024 zeros |
| `Ustar.ChecksumIsValid` | kernel/build.rs:169-180 | the checksum field holds the sum of the header's bytes with that field read as spaces |
| `Ustar.FindsAsRead` | kernel/src/fs/initramfs.rs:46-80 | for every list of entries of accepted size, any names, finding returns the first entry, before any that ends the archive, whose name as kept is the path's |
| `Ustar.RoundTrip` | kernel/src/fs/initramfs.rs:46-80 | for every list of storable entries and every path, finding in the built archive returns the first entry of that name, or none |
| `Ustar.ReadsNamed` | kernel/src/fs/initramfs.rs:66-80 | for every list of storable entries: a path with any leading slashes and "./"s reads the first entry whose name, behind any "./"s, is the same, and nothing if there is none |
| `Ustar.FindsMember` | kernel/src/fs/initramfs.rs:46-80 | in an archive of any writer, cut off anywhere between or inside members, a path finds the first regular file of that name, by either type flag |
| `Ustar.NameInIs` | kernel/src/fs/initramfs.rs:53-56 | the name read from any header is its name field up to the first NUL, empty when that is not text |
| `Ustar.KeptIs` | kernel/build.rs:150-152 | of any name written, its first 100 bytes cut at the first NUL are kept if they are text |
| `Ustar.EmptyNameEndsArchive` | kernel/src/fs/initramfs.rs:46-52 | wherever an entry has an empty name, finding in the archive is finding in the archive of the entries before it |
| `Ustar.FindInTar` | kernel/src/fs/initramfs.rs:46-80 | the header-to-header loop is the recursive search, on any bytes |
| `Ustar.ListsAsRead` | kernel/src/fs/initramfs.rs:85-128 | with room for all, listing any archive of accepted sizes yields exactly the matching names as kept, in order, up to the entry that ends it |
| `Ustar.ListRoundTrip` | kernel/src/fs/initramfs.rs:85-128 | with room for all, listing an archive of storable entries yields exactly their matching names in order |
| `Ustar.ListsEntries` | kernel/src/fs/initramfs.rs:85-128 | with any room, listing the archive is listing the entries as the reader meets them, dropping the lines that do not fit |
| `Ustar.ListsMembers` | kernel/src/fs/initramfs.rs:85-128 | in an archive of any writer the regular files are listed, and nothing else |
| `Ustar.RelativeIs` | kernel/src/fs/initramfs.rs:103-110 | a name is listed under a prefix if and only if it is the prefix, any slashes, and something not beginning with one |
| `Ustar.ListingGrows` | kernel/src/fs/initramfs.rs:111-121 | one more entry adds its line and a newline if they fit, and otherwise nothing |
| `Ustar.ListInTar` | kernel/src/fs/initramfs.rs:85-128 | the loop writes that listing into the buffer and nothing beyond it |
| `Ext2.FileBlockIsPointer` | kernel/src/fs/ext2.rs:162-187 | the branching, dividing pointer walk reads entry `logical` of the flat list of 12 + p + p*p pointers, for every one of them |
| `Ext2.TableIs` | kernel/src/fs/ext2.rs:162-187 | pointer k of a pointer block is the little-endian word there on the disk |
| `Ext2.BlockIsStretch` | kernel/src/fs/ext2.rs:129-141 | a block reads as its own stretch of the disk, exactly when it is nonzero and inside |
| `Ext2.InodeIsAtOffset` | kernel/src/fs/ext2.rs:144-159 | an inode is read from its group table's byte offset, exactly when it does not cross a sector |
| `Ext2.InodeFields` | kernel/src/fs/ext2.rs:144-159 | size and the fifteen block pointers are the little-endian words at offsets 4 and 40 + 4k of the inode's place on the disk |
| `Ext2.NoInode` | kernel/src/fs/ext2.rs:144-153 | inode 0, one past the last group and one past the disk are not read |
| `Ext2.ReadIsFlat` | kernel/src/fs/ext2.rs:190-204 | reading a file gives exactly the i_size prefix of its concatenated blocks, nothing if a block is missing, and never a panic within the pointer range |
| `Ext2.FileByte` | kernel/src/fs/ext2.rs:190-204 | byte i of a file read is the disk's byte i % block size of the block that pointer i / block size names |
| `Ext2.ReadableWhen` | kernel/src/fs/ext2.rs:190-204 | a file within the pointer range is read if and only if every block it needs has a pointer to a block on the disk |
| `Ext2.ReadFileBytes` | kernel/src/fs/ext2.rs:190-204 | the copying loop is the block-by-block reading |
| `Ext2Directory.PastLimit` | kernel/src/fs/ext2.rs:174-187 | past the pointer structure there is never a block: the index panics exactly when the double indirect block can be read; so the directory walk ends on any volume |
| `Ext2Directory.DecodesRecord` | kernel/src/fs/ext2.rs:224-236 | an encoded directory record is decoded to its fields wherever it stands |
| `Ext2Directory.ScansUpTo` | kernel/src/fs/ext2.rs:223-238 | in any block the live records before the first bytes that are no record are visited once, in order; a live name that runs past the block panics |
| `Ext2Directory.ScansDirectory` | kernel/src/fs/ext2.rs:207-241 | on a well-formed directory each live entry is visited once, in order, until the callback stops |
| `Ext2Directory.TornStep` | kernel/src/fs/ext2.rs:212-240 | after a torn block the walk goes on in the next one, its file offset advanced only by the records it saw |
| `Ext2Directory.LookupIsFirstNamed` | kernel/src/fs/ext2.rs:244-252 | a lookup on disk is the first entry of that name in the abstract directory |
| `Ext2Directory.ResolvesPath` | kernel/src/fs/ext2.rs:255-267 | an absolute path of plain names resolves to walking those names in the abstract tree when the walk stays in the tree; otherwise the tree has nothing there and one raw scan of the inode reached, for the next name, decides: not found agrees, a panic does not, an entry found sends the rest on; with one name left it agrees if and only if the scan finds nothing |
| `Ext2Directory.ResolvesDirectories` | kernel/src/fs/ext2.rs:255-267 | resolving agrees with the tree whenever every component but the last is marked as a directory, or the inode where the walk ends is unreadable or empty |
| `Ext2Directory.SlashesDoNotMatter` | kernel/src/fs/ext2.rs:255-267 | a slash at the start, at the end or after another one makes no difference to any path |
| `Ext2Directory.RootResolves` | kernel/src/fs/ext2.rs:255-260 | the empty path and "/" resolve to inode 2, a directory |
| `Ext2Directory.FileReadAsDirectory` | kernel/src/fs/ext2.rs:255-267 | a concrete volume on which a path through a regular file resolves although the tree has nothing there |
| `Ext2Directory.WalkBlock` | kernel/src/fs/ext2.rs:223-238 | the record loop, on any bytes |
| `Ext2Directory.ReadDir` | kernel/src/fs/ext2.rs:207-241 | the block loop, on any volume, malformed directories included |
| `Ext2Directory.Lookup` | kernel/src/fs/ext2.rs:244-252 | lookup through the loops |
| `Ext2Directory.ResolvePath` | kernel/src/fs/ext2.rs:255-267 | the component loop, empty components skipped |
| `CrashRecovery.CrashesCounted` | kernel/src/app_registry/mod.rs:570-622 | in every run no leader is running and pending at once, no instance is queued twice, no queued crash is lost or names another app, and relaunches never exceed abnormal deaths |
| `CrashRecovery.RelaunchRate` | kernel/src/app_registry/mod.rs:634-667 | at most 3 attempts a window, windows begin more than 30 s apart, at most 6 attempts in any 30 s |
| `CrashRecovery.CrashIsRelaunched` | kernel/src/app_registry/mod.rs:570-667 | a first crash of a launched app, by any thread and code, goes through every section to one attempt at the time of the decision, and leaves running and pending tables empty |
| `CrashRecovery.LaunchRecorded` | kernel/src/app_registry/mod.rs:570-575 | a launch is recorded exactly when a slot is free and moves no other instance |
| `CrashRecovery.ExitMeans` | kernel/src/app_registry/mod.rs:581-609 | an abnormal death of any thread ends the group and names its app; a clean exit ends it only for the leader and never asks for a relaunch |
| `CrashRecovery.RelaunchedWhen` | kernel/src/app_registry/mod.rs:634-659 | a crash is relaunched if and only if its window has expired or has attempts left, or a slot is free to open one |
| `CrashRecovery.QueueMeans` | kernel/src/app_registry/mod.rs:600-621 | a crash is queued if and only if a slot is free; a drain takes the first waiting crash if and only if there is one; no other slot changes |
| `CrashRecovery.QueueStep` | kernel/src/app_registry/mod.rs:600-609 | the second section of an exit hands the crash to a free slot, or loses it exactly when the lock is taken or no slot is free |
| `CrashRecovery.TakeStep` | kernel/src/app_registry/mod.rs:611-622 | a drain moves the first waiting crash out, and does nothing exactly when the lock is taken or none waits |
| `CrashRecovery.DecideStep` | kernel/src/app_registry/mod.rs:634-659 | a decision uses up one crash and counts an attempt exactly when the window has attempts left or is over, or a slot is free for a first one |
| `CrashRecovery.ExitUnseen` | kernel/src/app_registry/mod.rs:581-592 | an exit under a taken lock or of a group not recorded changes nothing |
| `CrashRecovery.Recovery.NoteRunning` | kernel/src/app_registry/mod.rs:570-575 | the instance goes into the first free slot, or nowhere when there is none |
| `CrashRecovery.Recovery.NoteThreadExit` | kernel/src/app_registry/mod.rs:581-609 | both lock sections of an exit, either skipped when its lock is taken |
| `CrashRecovery.Recovery.TakePending` | kernel/src/app_registry/mod.rs:614-621 | the first pending crash is taken out |
| `CrashRecovery.Recovery.DecideRelaunch` | kernel/src/app_registry/mod.rs:634-659 | slot, window and attempt count after a decision, and whether to relaunch |
| `PackageCache.PinnedForever` | kernel/src/pkg/cache.rs:78-144 | a pinned app, once cached, stays cached whatever operations follow, at any times |
| `PackageCache.EveryEviction` | kernel/src/pkg/cache.rs:78-126 | with a clock that never goes back, an evicted app is unpinned and at least 16 - pinned distinct other apps, counting the newcomer, were used at its last use or since |
| `PackageCache.StrictlyLaterUnlessTied` | kernel/src/pkg/cache.rs:97-103 | another unpinned app was used strictly after the victim if and only if their last uses do not share a tick |
| `PackageCache.TieEvictsTheLaterUsed` | kernel/src/pkg/cache.rs:97-103 | a run in which an app used after another one in the same tick is the one evicted |
| `PackageCache.Victim` | kernel/src/pkg/cache.rs:97-103 | the victim is a least recently used unpinned entry; none only when all are pinned |
| `PackageCache.InsertMeans` | kernel/src/pkg/cache.rs:78-126 | at any time, inserting an app that is not cached succeeds if and only if some entry is not pinned, and the app is then cached under its hash |
| `PackageCache.RemoveMeans` | kernel/src/pkg/cache.rs:129-144 | a remove succeeds if and only if the app is cached unpinned, and leaves it uncached and the others alone |
| `PackageCache.LookupMeans` | kernel/src/pkg/cache.rs:56-66 | a lookup finds a hash exactly when an active entry has it, dates the first such entry and changes nothing else |
| `PackageCache.TouchMeans` | kernel/src/pkg/cache.rs:147-156 | a touch dates the app's entry and changes nothing else |
| `PackageCache.Cache.InsertApp` | kernel/src/pkg/cache.rs:78-126 | free entry first, else the victim's, else failure |
| `PackageCache.Cache.LookupHash` | kernel/src/pkg/cache.rs:56-66 | a hit returns the app and dates only that entry |
| `PackageCache.Cache.RemoveApp` | kernel/src/pkg/cache.rs:129-144 | removes an unpinned entry, refuses a pinned one |
| `PackageCache.Cache.TouchApp` | kernel/src/pkg/cache.rs:147-156 | dates only the app's entry |
| `Isolates.AlwaysAgree` | kernel/src/isolate/mod.rs:72-187 | in every run of at most 2^32 - 1 spawns, interleaved anyhow with kills, each live or dying isolate has one inbox unless its spawn found the table full, nobody else has one, and per inbox sent = received + dropped + pending with delivery in send order |
| `Isolates.SpawnFindsInbox` | kernel/src/isolate_msg/mod.rs:105-115 | creating an inbox finds room if and only if live isolates and those being torn down, less those without one, leave a slot |
| `Isolates.CalmSpawnFindsInbox` | kernel/src/isolate/mod.rs:128-150 | with no kill half done, a spawn that gets a handle gets an inbox |
| `Isolates.WholeOperationsMissNone` | kernel/src/isolate/mod.rs:112-187 | in every run in which no spawn comes inside a kill, every isolate has its inbox |
| `Isolates.SpawnInsideKillMisses` | kernel/src/isolate/mod.rs:112-187 | a run of 64 spawns, half a kill and a spawn, after which an isolate lives without an inbox |
| `Isolates.DeadForever` | kernel/src/isolate/mod.rs:87-91 | an isolate that died is never live again in any continuation within the first 2^32 - 1 spawns |
| `Isolates.WrappedSpawn` | kernel/src/isolate/mod.rs:87-160 | beyond them, live ids stay distinct if and only if the spawn's id is not live, the dead stay dead if and only if it never died, and inboxes stay distinct if and only if it has none or gets none |
| `Isolates.IdsCollide` | kernel/src/isolate/mod.rs:87-160 | a run in which isolate 1 outlives 2^32 - 2 others, after which two live isolates and two inboxes have id 1 and a dead isolate's id lives again |
| `Isolates.PopAccounted` | kernel/src/isolate_msg/mod.rs:60-68 | a receive hands over the oldest waiting message, cut to the buffer |
| `Isolates.SendMeans` | kernel/src/isolate_msg/mod.rs:133-150 | a message of at most 65536 bytes goes to the end of its isolate's inbox; one is lost, the oldest, only if 128 wait; any longer one, and every other inbox, is left alone |
| `Isolates.RecvMeans` | kernel/src/isolate_msg/mod.rs:157-163 | a receive takes the oldest message off that inbox alone |
| `Isolates.NoInbox` | kernel/src/isolate_msg/mod.rs:133-163 | sends to and receives from an isolate without an inbox change nothing |
| `Isolates.SpawnMeans` | kernel/src/isolate/mod.rs:112-160 | a spawn puts a running isolate of the next id into a slot that is not live and an empty inbox into a free one, if there are such, and touches nothing else |
| `Isolates.ControlMeans` | kernel/src/isolate/mod.rs:164-237 | a kill marks the first live isolate of the id dead, pause and resume set its phase, and nothing else changes |
| `Isolates.NotLive` | kernel/src/isolate/mod.rs:164-237 | kill, pause and resume of an id that is not live change nothing |
| `Isolates.ResumeUndoesPause` | kernel/src/isolate/mod.rs:195-237 | pausing a running isolate pauses it, and resuming restores the table |
| `Isolates.Tables.SpawnIsolate` | kernel/src/isolate/mod.rs:112-160 | handle slot, id and inbox as the spawn step says |
| `Isolates.Tables.MarkDead` | kernel/src/isolate/mod.rs:164-171 | a live isolate is marked dead, any other id is refused |
| `Isolates.Tables.SetPhase` | kernel/src/isolate/mod.rs:195-237 | pause and resume, refused for anything not live |
| `Isolates.Tables.CreateInbox` | kernel/src/isolate_msg/mod.rs:105-115 | an empty inbox in the first free slot, or none |
| `Isolates.Tables.DestroyInbox` | kernel/src/isolate_msg/mod.rs:118-126 | the isolate's inbox is removed |
| `Isolates.Tables.SendTo` | kernel/src/isolate_msg/mod.rs:133-150 | bounded push into the right inbox, dropping the oldest when full |
| `Isolates.Tables.RecvFrom` | kernel/src/isolate_msg/mod.rs:157-163 | pops the oldest message of the right inbox |
| `Leb128.UlebDecodes` | kernel/src/drivers/wasm_sandbox.rs:272-282 | wherever an encoding stands, minimal or padded, decoding gives its grammar value and length |
| `Leb128.SlebDecodes` | kernel/src/drivers/wasm_sandbox.rs:284-298 | the same for signed encodings |
| `Leb128.EncodeIs` | kernel/src/drivers/wasm_sandbox.rs:272-298 | every 32-bit number has a well-formed encoding with that value |
| `Leb128.ShortDecodes` | kernel/src/drivers/wasm_sandbox.rs:272-298 | a number that fits in k < 5 bytes, unsigned or in two's complement, is read back from its k bytes wherever they stand |
| `Leb128.CutShort` | kernel/src/drivers/wasm_sandbox.rs:272-298 | bytes that end before the number does read as 0 of length 1, either way |
| `Leb128.Overlong` | kernel/src/drivers/wasm_sandbox.rs:272-298 | after five bytes that all ask for more, both decoders stop, and neither extends a sign |
| `Leb128.UlebRaw` | kernel/src/drivers/wasm_sandbox.rs:272-282 | the shifting loop, truncated input included |
| `Leb128.SlebRaw` | kernel/src/drivers/wasm_sandbox.rs:284-298 | the shifting and sign-extending loop, truncated input included |
| `WasmSandbox.RunsExpression` | kernel/src/drivers/wasm_sandbox.rs:200-258 | for every i32 expression that fits the stack, shifts and bitwise operators included, running its postfix bytes pushes its value and consumes exactly those bytes |
| `WasmSandbox.RunsProgram` | kernel/src/drivers/wasm_sandbox.rs:200-258 | a straight-line program of assignments and drops has its effect on the locals and leaves the stack as it was |
| `WasmSandbox.CallReturnsValue` | kernel/src/drivers/wasm_sandbox.rs:169-258 | called at any depth below 16, a function whose body is a straight-line program and an expression returns the expression's value on what the program makes of 64 locals that hold the arguments and then zeros |
| `WasmSandbox.BitwiseBits` | kernel/src/drivers/wasm_sandbox.rs:235-237 | each bit of `and`, `or` and `xor` comes from the two bits at its place |
| `WasmSandbox.ShiftBits` | kernel/src/drivers/wasm_sandbox.rs:238-241 | shifts move every bit by the amount modulo 32; an unsigned shift right brings in zeros, a signed one the sign |
| `WasmSandbox.CallChooses` | kernel/src/drivers/wasm_sandbox.rs:244-248 | a function that is an if and else around two expressions returns the one the condition chooses, skipping the other's bytes whatever they are |
| `WasmSandbox.SkipsBlock` | kernel/src/drivers/wasm_sandbox.rs:309-325 | skipping to an else or end passes over a nested block whole |
| `WasmSandbox.CallLimits` | kernel/src/drivers/wasm_sandbox.rs:169-178 | calls nest sixteen deep and no deeper, imported functions return 0, and no function is found past the last body |
| `WasmSandbox.CallStep` | kernel/src/drivers/wasm_sandbox.rs:212-215 | a call pushes what the callee returns with no arguments one level deeper, or ends with its failure |
| `WasmSandbox.EndsEarly` | kernel/src/drivers/wasm_sandbox.rs:210-253 | end, return and br end the function with the top of the stack, or 0 when it is empty, whatever follows |
| `WasmSandbox.BranchIf` | kernel/src/drivers/wasm_sandbox.rs:249-253 | br_if ends the function with what lies under a nonzero condition, and otherwise goes on without the condition |
| `WasmSandbox.DivStep` | kernel/src/drivers/wasm_sandbox.rs:232-234 | division fails on zero and otherwise pushes the quotient |
| `WasmSandbox.DivideTruncates` | kernel/src/drivers/wasm_sandbox.rs:232-234 | the quotient leaves a remainder smaller than the divisor with the dividend's sign |
| `WasmSandbox.TeeStep` | kernel/src/drivers/wasm_sandbox.rs:218-220 | local.tee stores the top of the stack and leaves it there |
| `WasmSandbox.TrapOrNothing` | kernel/src/drivers/wasm_sandbox.rs:205-243 | unreachable fails, nop and the block openers do nothing |
| `WasmSandbox.RefusesOpcode` | kernel/src/drivers/wasm_sandbox.rs:254 | every opcode outside the supported ones is refused by its number |
| `WasmSandbox.Underflows` | kernel/src/drivers/wasm_sandbox.rs:193-196 | an instruction with too few operands on the stack fails |
| `WasmSandbox.Overflows` | kernel/src/drivers/wasm_sandbox.rs:189-192 | no instruction pushes onto a stack of 256 values |
| `WasmSandbox.BadLocal` | kernel/src/drivers/wasm_sandbox.rs:216-220 | a local index of 64 or more is out of range, for reading and writing |
| `WasmSandbox.Step` | kernel/src/drivers/wasm_sandbox.rs:202-256 | every instruction moves `pc` on and keeps 64 locals; a call happens only with stack room for its result |
| `WasmSandbox.Execute` | kernel/src/drivers/wasm_sandbox.rs:169-258 | the interpreter loop is the recursive meaning and ends on every input, by call depth left and then code left |
| `A64Emitter.LoadsConstant` | kernel/build.rs:638-652 | for every register and constant the emitted MOVZ/MOVK words leave the constant there and every other register alone; for the zero register they change nothing |
| `A64Emitter.MovkReplacesOne` | kernel/build.rs:638-652 | the MOVK the words are run on replaces one halfword and keeps the other three |
| `A64Emitter.WordsNeeded` | kernel/build.rs:638-652 | one word for the lowest halfword and one for each other that is not zero |
| `A64Emitter.LoadImm` | kernel/build.rs:638-652 | the loop appends exactly those words |

## Left out

- MMIO, port I/O, PCI probing, inline assembly, TLB maintenance and memory fences: plain memory reads and writes, or nothing.
- The x86_64 page-table lock, which keeps interrupts enabled: only the aarch64 protocol is modelled.
- Frame conservation for the mirror window of `demand_page`, which maps a frame a second time; faults there are modelled and have no target in the spaces of `X86Life.NoFrameLeaks`.
- The aarch64 teardown, which also frees identity pages left by a block split.
- Huge pages inside a user half: teardown frees them, but no modelled operation creates one.
- X86Life.NoFrameLeaks: `sys_munmap` passes its caller's range on unchecked, and a range over a mapped kernel-half page is outside it; `X86Life.RangeConserves` shows that exactly such ranges break the conservation.
- X86PageTables.UnmapUserRange: for such a range the in-place loop is not followed, because freeing a frame the allocator never managed breaks its counters, as `FrameAllocator.FrameBitmap.Free` states.
- The framebuffer before it is ready, its text console, cursor, HUD and boot screen; `Painter.RenderFrame` draws nothing when no surface has content, where the source draws the boot screen.
- Surface visibility, clip and damage setters and hit testing: the same lookup and permission test in front of a single assignment.
- Two frames drawn at once: between the sections of one frame other cores change the table, but do not draw.
- PixelPath.OnePassRefines: compares with re-packing for strides that are a multiple of 4 and hold a row; what other strides read is in `SurfaceTable.SubmitDependsOnPayload`.
- The transmit queue, MAC and frame-length handling of virtio-net, and virtio-blk requests.
- `mount` and the superblock of ext2, `ls` and `file_size`; a volume is given by its geometry, inode tables and bytes.
- `is_dir_in_embedded` of the initramfs.
- The app table, launching and killing of processes; a launch is a step with a fresh nonzero pid. Only the thread with pid 1 drains relaunches, so decisions are made in the order of their clock readings.
- PackageCache.EveryEviction: assumes, as the one caller ensures by installing first, that an app is inserted under an id that is not cached, and that the clock does not go back.
- Uninstalling an evicted app from the registry, and `status_text`.
- WASM module parsing; a module is its function bodies and number of imports. Loops and nested blocks are modelled in `WasmSandbox.Step`, with a theorem for each instruction's effect but none for whole programs of them.
- The app store's byte layout, xHCI rings, cortex IPC, the simple rings, clipboard, ramdisk, TCP and HTTP, the scheduler and the ELF stub generators.
