# OS-Projects: a verified model of five teaching programs

The repository holds operating-system teaching projects. This Dafny project
models the sequential logic of five of them and proves what each promises.

- **Distributed shared memory directory** (`s2dsm_P2.c`, module `Dsm`).
  Two processes agree on a shared region of `num_pages` pages. The peer
  with the lower port maps the region and sends its address and size. The
  other peer must map exactly that address. Each process keeps one MSI
  state per page (INVALID, SHARED, MODIFIED). A fault handler moves an
  INVALID page to SHARED and installs a zero page. A command loop reads
  (`r`), writes (`w`, a `strncpy` of at most 4095 bytes) or views (`v`)
  pages; `-1` means every page.
- **userfaultfd demonstration** (`uffd.c`, module `Uffd`). A region of
  4096-byte pages is registered for missing-page faults. The handler
  answers fault number k by filling its buffer with `'A' + k % 20` and
  copying it onto the faulting page. `main` walks the region in
  1024-byte steps through eight read and write loops, [U1] to [U8], and
  discards the pages twice with `MADV_DONTNEED`. The model proves what
  each loop reads and how many faults happen.
- **CPU profiler** (`CPUProfiler/Part2/perftop.c`, module `PerfTop`).
  - A search tree maps each pid to its accumulated CPU time.
  - A start-time table is filled by the entry probe of
    `pick_next_task_fair` and consumed by its return probe.
  - `add_to_top_tasks` inserts a task in place into a 10-slot array
    kept in descending order. `/proc/perftop` lists the ten heaviest tasks.
- **Kernel data structures** (`kds.c`, module `Kds`).
  - The module parameter is split on spaces. Each token that `sscanf("%d")`
    accepts with a value in [0, 1000] is stored in a list, an ordered
    tree, a hash table, a radix tree, an XArray and a 1001-bit bitmap.
  - Odd entries are then tagged.
  - Unloading empties every structure.
- **Toy file system** (`s2fs.c`, module `S2fs`). Every file reads as
  `"Hello World!\n"`. A read clamps the count against the offset and
  advances the offset. A write returns 0.

Shared modules:
- `Memory` holds bytes, 64-bit addresses and page alignment.
- `RbTree` is the ordered binary tree that the kernel's red-black tree
  presents to its users. Perftop and kds both use it.
- `Wrappers` holds `Option`.

Where the C code changes state in place, the model does too:
- Arrays hold the MSI directory, the page bytes, the top-tasks slots and
  the bitmap.
- Classes hold the per-process state.
- `while` loops carry their invariants.

Each such method is proved against a specification function. Lemmas then
prove what the source promises about that function.

Where the code departs from the MSI protocol its comments describe, or
from what its own comments say, the model follows the code:
- A fault in `s2dsm_P2.c` always moves INVALID to SHARED, even for a
  write fault; it never goes straight to MODIFIED.
- The fault handler installs a page of NUL bytes, not a pattern.
- `w` with `-1` writes every page but does not mark the pages MODIFIED.
  The C code assigns to `msi_array[-1]`, which is outside the array.
- An out-of-range page index is not rejected before the directory is
  indexed (lines 237, 239, 252 and 255 of `s2dsm_P2.c`). The page bytes
  are still guarded. The model leaves the directory unchanged for such an
  index, rather than reproducing the out-of-bounds access.
- The comments of [U2] and [U4] in `uffd.c` say every read shows 'A' and
  'B'. That holds only for a one-page region. Page p reads
  `'A' + p % 20` in [U1] and [U2], and `'A' + (num_pages + p) % 20` in
  [U3] and [U4]. `Uffd.RunProgram` states both.

## Model

| member | source | states |
|---|---|---|
| Memory.AlignDown | SuperSimpleDistributedSharedMemory/Part1/uffd/uffd.c:111-112 | the page start of an address is a multiple of 4096 with start <= address < start + 4096 |
| Memory.MaskClearsPageOffset | SuperSimpleDistributedSharedMemory/Part2/s2dsm_P2.c:80 | on a 64-bit value, `a & ~(4096 - 1)` equals a - a % 4096 (AlignDown), and never exceeds a |
| Memory.AlignedPageStart | SuperSimpleDistributedSharedMemory/Part2/s2dsm_P2.c:71-80 | inside a page-aligned region, the aligned fault address minus the base is the page index times 4096 |
| Dsm.RoleOf | SuperSimpleDistributedSharedMemory/Part2/s2dsm_P2.c:186 | a process is the allocator if and only if its local port is below the remote port |
| Dsm.Setup | SuperSimpleDistributedSharedMemory/Part2/s2dsm_P2.c:186-215 | the allocator goes on exactly when its mmap succeeds, with the typed page count; the follower goes on exactly when mmap returns the received address, and then adopts the received base and page count |
| Dsm.PeersAgree | SuperSimpleDistributedSharedMemory/Part2/s2dsm_P2.c:198-215 | two peers take opposite roles, and when the follower maps the sent address both end up with the same region |
| Dsm.Fetch | SuperSimpleDistributedSharedMemory/Part2/s2dsm_P2.c:73-76 | the page-fetch transition: INVALID becomes SHARED, other states stay, and the result is never INVALID and never a new MODIFIED |
| Dsm.FetchAt | SuperSimpleDistributedSharedMemory/Part2/s2dsm_P2.c:237-240 | a fetch of page p changes only entry p of the directory, and only when p indexes it |
| Dsm.ModifyAt | SuperSimpleDistributedSharedMemory/Part2/s2dsm_P2.c:252-255 | a `w` on page p makes entry p MODIFIED whatever it was; no other entry changes |
| Dsm.FetchAtProperties | SuperSimpleDistributedSharedMemory/Part2/s2dsm_P2.c:73-76 | a fetch never creates a MODIFIED page, leaves the fetched page valid, and is idempotent |
| Dsm.ModifiedStays | SuperSimpleDistributedSharedMemory/Part2/s2dsm_P2.c:236-255 | a written page stays MODIFIED when it is read or faults afterwards |
| Dsm.PageOf | SuperSimpleDistributedSharedMemory/Part2/s2dsm_P2.c:246 | page q is the 4096 bytes from q * 4096 (`addr + q * PAGESIZE`) |
| Dsm.CLen | SuperSimpleDistributedSharedMemory/Part2/s2dsm_P2.c:246 | the C-string length is the index of the first NUL, or the whole length if there is none |
| Dsm.CString | SuperSimpleDistributedSharedMemory/Part2/s2dsm_P2.c:246 | what `%s` prints is a NUL-free prefix that ends at a NUL or at the end |
| Dsm.Strncpy | SuperSimpleDistributedSharedMemory/Part2/s2dsm_P2.c:262 | `strncpy(dst, src, n)` leaves n bytes: src up to its first NUL, then NUL padding |
| Dsm.WritePage | SuperSimpleDistributedSharedMemory/Part2/s2dsm_P2.c:262 | writing page q sets its first 4095 bytes to the padded message and keeps every other byte, the page's last one included |
| Dsm.WriteAll | SuperSimpleDistributedSharedMemory/Part2/s2dsm_P2.c:256-260 | after the first k pages are written, each holds the padded message followed by its old last byte, and later bytes are unchanged |
| Dsm.TouchAt | SuperSimpleDistributedSharedMemory/Part2/s2dsm_P2.c:241-263 | the pages `r` or `w` on index p access, and which then hold data: every page for -1, page p in range, none for other indices; a populated page stays populated |
| Dsm.ZeroPage | SuperSimpleDistributedSharedMemory/Part2/s2dsm_P2.c:78-88 | installing the handler's page makes page q all NUL bytes and keeps every other byte |
| Dsm.ShowWritten | SuperSimpleDistributedSharedMemory/Part2/s2dsm_P2.c:251-263 | a page written with a message of at most 1023 bytes prints as that message up to its first NUL |
| Dsm.WritesKeepTerminated | SuperSimpleDistributedSharedMemory/Part2/s2dsm_P2.c:256-263 | writing one page or installing a zero page keeps every page's last byte NUL |
| Dsm.WriteAllKeepsTerminated | SuperSimpleDistributedSharedMemory/Part2/s2dsm_P2.c:256-260 | the `-1` write keeps every page's last byte NUL |
| Dsm.Session.constructor | SuperSimpleDistributedSharedMemory/Part2/s2dsm_P2.c:220-223 | after setup every page in [0, num_pages) is INVALID and holds no data, the region is all NUL bytes, and the handler's page is a separate zero page |
| Dsm.Session.PageIndex | SuperSimpleDistributedSharedMemory/Part2/s2dsm_P2.c:71 | the page index of a fault at or above the base names the page holding it: index * 4096 <= a - base < index * 4096 + 4096 |
| Dsm.Session.PageIndexInRegion | SuperSimpleDistributedSharedMemory/Part2/s2dsm_P2.c:71-80 | the unsigned page index is below num_pages exactly when the address lies in the region, and the aligned address is then that page's start |
| Dsm.Session.HandleFault | SuperSimpleDistributedSharedMemory/Part2/s2dsm_P2.c:41-89 | a poll/read failure, a non-fault event or a fault outside the region is fatal with nothing changed; a fault on page p fetches p (INVALID to SHARED, others stay) and changes no other entry; if p already holds data, UFFDIO_COPY fails and the process exits with every byte kept; otherwise the zero page is installed at the aligned address base + p * 4096 and p alone becomes populated |
| Dsm.Session.InstallPage | SuperSimpleDistributedSharedMemory/Part2/s2dsm_P2.c:78-88 | UFFDIO_COPY of the zero page onto page p changes exactly that page's bytes |
| Dsm.Session.CopyMessage | SuperSimpleDistributedSharedMemory/Part2/s2dsm_P2.c:258 | the byte loop of `strncpy` leaves the region as WritePage describes |
| Dsm.Session.Show | SuperSimpleDistributedSharedMemory/Part2/s2dsm_P2.c:246 | a page prints as its C string, which is shorter than the page because the last byte is NUL |
| Dsm.Session.CommandRead | SuperSimpleDistributedSharedMemory/Part2/s2dsm_P2.c:236-247 | `r` fetches the page (never MODIFIED, other pages untouched), prints it, prints every page for -1, prints nothing for other indices, and changes no byte; the printed pages become populated (TouchAt) |
| Dsm.Session.CommandWrite | SuperSimpleDistributedSharedMemory/Part2/s2dsm_P2.c:248-264 | `w` makes an in-range page MODIFIED whatever it was and writes the padded message into it; -1 writes every page; other indices change no byte; each written page prints as the message and becomes populated (TouchAt) |
| Dsm.Session.SetModified | SuperSimpleDistributedSharedMemory/Part2/s2dsm_P2.c:255 | the directory becomes ModifyAt of the old one |
| Dsm.Session.WriteEveryPage | SuperSimpleDistributedSharedMemory/Part2/s2dsm_P2.c:256-260 | the `-1` loop leaves WriteAll of the region, prints the message once per page, and populates every page |
| Dsm.Session.WriteNext | SuperSimpleDistributedSharedMemory/Part2/s2dsm_P2.c:257-259 | step i of the `-1` loop extends WriteAll from i to i + 1 pages, prints the message, and populates page i alone |
| Dsm.Session.WriteOnePage | SuperSimpleDistributedSharedMemory/Part2/s2dsm_P2.c:261-263 | one page takes the padded message, prints as the message, and becomes populated |
| Dsm.Session.View | SuperSimpleDistributedSharedMemory/Part2/s2dsm_P2.c:265-270 | `v` reports the state of every page, in page order, and changes nothing |
| Dsm.Session.Dispatch | SuperSimpleDistributedSharedMemory/Part2/s2dsm_P2.c:227-274 | one command: `r` fetches the page, changes no byte and shows the page (every page for -1, nothing for other indices); `w` makes the page MODIFIED, writes WritePage of an in-range page or WriteAll for -1, leaves the bytes of other indices, and shows the message once per written page; `r` and `w` populate the pages they print or write (TouchAt); `v` reports the directory; any other command prints "Invalid command!"; only `r` and `w` change anything |
| Uffd.Pattern | SuperSimpleDistributedSharedMemory/Part1/uffd/uffd.c:104 | fault number k fills with 'A' + k % 20, always one of 'A' to 'T' |
| Uffd.Touched | SuperSimpleDistributedSharedMemory/Part1/uffd/uffd.c:207-213 | the region after the first n pages are touched keeps its size, and touching no page changes nothing (its meaning is given by TouchedStep, TouchedAllMissing and TouchedAllPresent) |
| Uffd.TouchedStep | SuperSimpleDistributedSharedMemory/Part1/uffd/uffd.c:207-213 | touching one more page changes only that page, and only when it was missing |
| Uffd.TouchedAllMissing | SuperSimpleDistributedSharedMemory/Part1/uffd/uffd.c:200-213 | a pass over a region with every page missing gives page p the pattern of fault k + p |
| Uffd.TouchedAllPresent | SuperSimpleDistributedSharedMemory/Part1/uffd/uffd.c:215-227 | a pass over a region with every page present changes no byte |
| Uffd.PassStep | SuperSimpleDistributedSharedMemory/Part1/uffd/uffd.c:238-244 | one 1024-byte step refaults only the page it enters, makes it present, and counts a fault only if that page was missing |
| Uffd.WriteStep | SuperSimpleDistributedSharedMemory/Part1/uffd/uffd.c:270-274 | in a write pass, faulting in the entered page commutes with the bytes already written below l |
| Uffd.ReadAdvance | SuperSimpleDistributedSharedMemory/Part1/uffd/uffd.c:208-212 | the read loop's invariant holds again after one step |
| Uffd.ReadDone | SuperSimpleDistributedSharedMemory/Part1/uffd/uffd.c:208-213 | a finished read pass has every page touched and present, every missing page counted, and has read byte j * 1024 of the result at step j |
| Uffd.WriteAdvance | SuperSimpleDistributedSharedMemory/Part1/uffd/uffd.c:270-274 | the write loop's invariant holds again after one step |
| Uffd.WriteDone | SuperSimpleDistributedSharedMemory/Part1/uffd/uffd.c:269-275 | a finished write pass leaves every byte equal to c, every page present, every missing page counted, and c read at every step |
| Uffd.Region.constructor | SuperSimpleDistributedSharedMemory/Part1/uffd/uffd.c:154-198 | the region is num_pages * 4096 bytes from a page-aligned base, registered over exactly [base, base + len); every page is missing and no fault has been handled |
| Uffd.Region.HandleEvent | SuperSimpleDistributedSharedMemory/Part1/uffd/uffd.c:52-128 | a failed poll or read, EOF, or an event that is not a page fault is fatal with nothing changed; a fault fills the buffer with the next pattern, counts exactly one fault, and installs at the address rounded down to its page exactly when that page is in the region and missing; the installed page alone becomes present and holds the pattern |
| Uffd.Region.FillPage | SuperSimpleDistributedSharedMemory/Part1/uffd/uffd.c:104 | `memset(page, fill, page_size)` sets all 4096 buffer bytes |
| Uffd.Region.CopyPage | SuperSimpleDistributedSharedMemory/Part1/uffd/uffd.c:110-121 | exactly page_size bytes of the buffer land on page p; no other byte changes |
| Uffd.Region.Touch | SuperSimpleDistributedSharedMemory/Part1/uffd/uffd.c:209 | an access to a missing page faults once and installs the next pattern; an access to a present page changes nothing |
| Uffd.Region.SetChunk | SuperSimpleDistributedSharedMemory/Part1/uffd/uffd.c:271 | `memset(addr + l, c, 1024)` sets bytes [l, l + 1024) and nothing else |
| Uffd.Region.ReadPass | SuperSimpleDistributedSharedMemory/Part1/uffd/uffd.c:207-213 | a read loop faults each missing page once at its first step, in address order, and reads byte j * 1024 of the touched region at step j |
| Uffd.Region.ReadLoop | SuperSimpleDistributedSharedMemory/Part1/uffd/uffd.c:208-212 | the `while (l < len)` loop ends past the region with the read pass complete |
| Uffd.Region.ReadStep | SuperSimpleDistributedSharedMemory/Part1/uffd/uffd.c:209-212 | `char c = addr[l]` touches page l / 4096, reads byte l, and advances l by 1024 |
| Uffd.Region.WritePass | SuperSimpleDistributedSharedMemory/Part1/uffd/uffd.c:269-275 | a write loop faults each missing page once, leaves every byte equal to c, and reads c back at every step |
| Uffd.Region.WriteLoop | SuperSimpleDistributedSharedMemory/Part1/uffd/uffd.c:270-274 | the write loop ends past the region with the write pass complete |
| Uffd.Region.WriteChunk | SuperSimpleDistributedSharedMemory/Part1/uffd/uffd.c:271-274 | one memset step faults the page in if it is missing, sets 1024 bytes to c, and reads c back |
| Uffd.Region.Madvise | SuperSimpleDistributedSharedMemory/Part1/uffd/uffd.c:235-237 | after `MADV_DONTNEED` every page of the region is missing |
| Uffd.RunProgram | SuperSimpleDistributedSharedMemory/Part1/uffd/uffd.c:131-320 | whole run: [U1] and [U2] read 'A' + p % 20 on page p; [U3] and [U4] read 'A' + (num_pages + p) % 20 (with one page, 'A' then 'B'); [U5]/[U6] read '@'; [U7]/[U8] read '^'; the fault count after [U1]..[U8] is num_pages, num_pages, 2 num_pages, 2 num_pages, then 3 num_pages four times: each page faults once in [U1], [U3] and [U5] and never in [U2], [U4], [U6], [U7], [U8] |
| Uffd.FreshPasses | SuperSimpleDistributedSharedMemory/Part1/uffd/uffd.c:200-227 | two read loops over a discarded region: the count after the first is k + num_pages (every page faults once), the second adds none, and both read the pattern of fault k + p on page p |
| Uffd.WriteThenRead | SuperSimpleDistributedSharedMemory/Part1/uffd/uffd.c:260-289 | a write loop of c faults each missing page once (the count after it is k), and the read loop after it reads c everywhere and leaves the count at k: it causes no fault |
| PerfTop.AddU64 | CPUProfiler/Part2/perftop.c:195 | `total_cpu_time += cpu_time` on u64 wraps modulo 2^64 |
| PerfTop.SubU64 | CPUProfiler/Part2/perftop.c:220 | `end_time - start_time` on u64 wraps modulo 2^64 |
| PerfTop.StopSlot | CPUProfiler/Part2/perftop.c:142 | the down-counting loop stops at the highest slot holding a time >= the new task's, or at -1; every slot it passed is empty or lighter |
| PerfTop.AddToTop | CPUProfiler/Part2/perftop.c:140-148 | the array after `add_to_top_tasks` keeps ten slots; where the task lands is stated by AddToTopPlacement, the invariant it keeps by AddToTopValid |
| PerfTop.AddToTopPlacement | CPUProfiler/Part2/perftop.c:142-147 | the new task lands right after the last slot whose time is >= its own (ties keep earlier entries ahead); slots above are untouched; passed slots shift down one; the array is unchanged exactly when slot 9 holds a time >= the new one |
| PerfTop.AddToTopTasks | CPUProfiler/Part2/perftop.c:140-148 | the in-place insertion leaves the array AddToTop describes |
| PerfTop.ShiftDown | CPUProfiler/Part2/perftop.c:142-145 | the loop stops at a heavy slot or -1, passes only light or empty slots, and moves each passed slot one place down |
| PerfTop.Ahead | CPUProfiler/Part2/perftop.c:142 | the tasks ahead of t end with one whose time is >= t's; every later task is lighter |
| PerfTop.Inserted | CPUProfiler/Part2/perftop.c:146-147 | inserting adds exactly the new task to the list's multiset |
| PerfTop.AddToTopFill | CPUProfiler/Part2/perftop.c:140-148 | on an array holding a list of tasks, `add_to_top_tasks` is list insertion truncated to ten |
| PerfTop.InsertedDescending | CPUProfiler/Part2/perftop.c:142-147 | inserting after the tasks ahead keeps times non-increasing |
| PerfTop.AddToTopValid | CPUProfiler/Part2/perftop.c:140-148 | `add_to_top_tasks` keeps the array invariant: occupied slots form a prefix of non-increasing times, then empty slots |
| PerfTop.AddToTopFullUnchanged | CPUProfiler/Part2/perftop.c:142-147 | if slot 9 holds a time >= the new task's, the array is unchanged |
| PerfTop.TopOf | CPUProfiler/Part2/perftop.c:151-158 | the top list after offering n tasks to an empty array has min(n, 10) tasks; TopOfSelects proves they are the heaviest |
| PerfTop.AddAllFill | CPUProfiler/Part2/perftop.c:151-158 | offering tasks one by one to an all-empty array gives the filled array of their top list |
| PerfTop.InsertTopFull | CPUProfiler/Part2/perftop.c:142-147 | inserting into a full list drops one task no heavier than any kept: the new task (list unchanged) or a stored task lighter than it |
| PerfTop.SelectsGrow | CPUProfiler/Part2/perftop.c:146-147 | inserting into a list that is not full loses no task |
| PerfTop.SelectsFull | CPUProfiler/Part2/perftop.c:142-147 | inserting into a full list keeps it a valid top ten: sorted, drawn from the tasks, and no dropped task heavier than a kept one |
| PerfTop.TopOfSelects | CPUProfiler/Part2/perftop.c:151-158 | traversal from an all-empty array keeps the min(10, n) heaviest tasks in non-increasing order, all of them when n <= 10, and drops none heavier than one kept |
| PerfTop.TraverseRbTree | CPUProfiler/Part2/perftop.c:151-158 | every node, in `rb_first`/`rb_next` order, is offered to `add_to_top_tasks` |
| PerfTop.PerftopShow | CPUProfiler/Part2/perftop.c:160-174 | the listed tasks are the top list of the tree: min(10, size) tasks, non-increasing, no omitted task heavier than a listed one |
| PerfTop.Occupied | CPUProfiler/Part2/perftop.c:170-174 | the printing loop lists the occupied slots of a filled array: exactly its list |
| PerfTop.FirstStart | CPUProfiler/Part2/perftop.c:51-63 | `find_start_time` returns the start time of the first entry for the pid, or 0 when there is none |
| PerfTop.RemoveFirst | CPUProfiler/Part2/perftop.c:65-76 | `delete_start_time` with no entry for the pid leaves the table unchanged |
| PerfTop.RemoveFirstRemovesOne | CPUProfiler/Part2/perftop.c:65-76 | when the pid has an entry, deleting removes exactly one entry: the one `find_start_time` returns |
| PerfTop.RemoveFirstAt | CPUProfiler/Part2/perftop.c:69-74 | deleting cuts out the first slot whose pid matches |
| PerfTop.RemoveFirstOthers | CPUProfiler/Part2/perftop.c:65-76 | deleting one pid's entry leaves every other pid's start time unchanged |
| PerfTop.AddFindDelete | CPUProfiler/Part2/perftop.c:38-76 | the entry added last for a pid is the one found, and deleting it restores the table |
| PerfTop.Charge | CPUProfiler/Part2/perftop.c:218-226 | charging adds exactly the charged pid to the tree's keys, whether it was there or not |
| PerfTop.ChargeSpec | CPUProfiler/Part2/perftop.c:190-200 | `update_rb_tree` keeps the tree ordered with unique pids; a present pid's total grows by cpu_time (mod 2^64); an absent pid gets exactly one node (pid, cpu_time); other pids are unaffected |
| PerfTop.Profiler.constructor | CPUProfiler/Part2/perftop.c:28-29 | the module starts with an empty tree and an empty start-time table |
| PerfTop.Profiler.AddStartTime | CPUProfiler/Part2/perftop.c:38-48 | `hash_add` puts the new entry at the head of the table |
| PerfTop.Profiler.FindStartTime | CPUProfiler/Part2/perftop.c:51-63 | the lookup loop returns FirstStart: the first entry's time, or 0 |
| PerfTop.Profiler.DeleteStartTime | CPUProfiler/Part2/perftop.c:65-76 | the unlink loop leaves RemoveFirst of the table |
| PerfTop.Profiler.FindTask | CPUProfiler/Part2/perftop.c:122-137 | the BST search returns the pid's total, or None exactly when no node has that pid |
| PerfTop.Profiler.InsertTask | CPUProfiler/Part2/perftop.c:92-119 | the descent finds whether the pid is present: a duplicate pid returns with the tree unchanged; otherwise the tree becomes RbTree.Insert of it, the node (pid, cpu_time) linked where the search by pid ends |
| PerfTop.Profiler.UpdateRbTree | CPUProfiler/Part2/perftop.c:190-200 | accumulate-or-insert leaves Charge of the old tree and keeps it ordered |
| PerfTop.Profiler.EntryPickNextFair | CPUProfiler/Part2/perftop.c:202-211 | the entry probe records a start time exactly when a task is passed in |
| PerfTop.Profiler.RetPickNextFair | CPUProfiler/Part2/perftop.c:213-230 | time is charged only when prev is non-NULL and differs from next: end - start (u64) goes to prev's node and prev's first start entry is deleted; otherwise nothing changes |
| RbTree.Insert | CPUProfiler/Part2/perftop.c:98-116 | insertion adds exactly the key; an ordered tree that has the key is unchanged; a new key adds one node; order is kept |
| RbTree.Replace | CPUProfiler/Part2/perftop.c:195 | updating a node's value keeps the keys, the size and the order |
| RbTree.RemoveMin | KernelDataStructure/kds.c:320-324 | erasing `rb_first` removes one node, the leftmost; in an ordered tree that is the smallest key, which is gone afterwards, and order is kept |
| RbTree.Lookup | CPUProfiler/Part2/perftop.c:122-137 | the search only finds values stored under the key searched for; LookupFindsKeys adds that on an ordered tree it finds every key |
| RbTree.LookupFindsKeys | CPUProfiler/Part2/perftop.c:122-137 | in an ordered tree the search finds a value exactly for the stored keys |
| RbTree.LookupAfterInsert | CPUProfiler/Part2/perftop.c:110-116 | after inserting an absent key the search finds its value; other keys find what they found before |
| RbTree.LookupAfterReplace | CPUProfiler/Part2/perftop.c:193-195 | after updating a present key the search finds the new value; other keys are unaffected |
| RbTree.InOrderKeys | KernelDataStructure/kds.c:258-260 | the in-order walk visits every key of the tree once and no other |
| RbTree.InOrderAscending | KernelDataStructure/kds.c:258-260 | the in-order walk of an ordered tree visits keys in strictly ascending order |
| Kds.Strsep | KernelDataStructure/kds.c:216 | one `strsep(&p, " ")` returns a space-free token; the string is the token, a space and the rest, or just the token when it holds no space (p becomes NULL) |
| Kds.Tokens | KernelDataStructure/kds.c:216 | the strsep loop sees one token more than the parameter has spaces: at least one, empty tokens included |
| Kds.TokensJoin | KernelDataStructure/kds.c:216 | the tokens of the loop, empty ones included, hold no space and join with single spaces back to the parameter |
| Kds.ToInt32 | KernelDataStructure/kds.c:219 | a scanned value is reduced to a C `int`: in range, congruent modulo 2^32 |
| Kds.ScanInt | KernelDataStructure/kds.c:219 | `sscanf("%d")` succeeds only on a token that holds a digit, and its value fits a C `int`; ScanFormat proves it inverts decimal printing |
| Kds.ScanNonNegative | KernelDataStructure/kds.c:219 | a non-negative int printed in decimal, followed by a non-digit, scans back to itself |
| Kds.ScanNegative | KernelDataStructure/kds.c:219 | a negative int printed as '-' and its digits, followed by a non-digit, scans back to itself |
| Kds.ScanFormat | KernelDataStructure/kds.c:219 | `%d` scanning inverts printing: any int printed in decimal, followed by anything but a digit, scans back to itself |
| Kds.Accept | KernelDataStructure/kds.c:219 | a token contributes a number exactly when it scans to an int in [0, 1000], and then that int |
| Kds.Kept | KernelDataStructure/kds.c:217-247 | one token adds at most one number to the structures, always in [0, 1000] |
| Kds.Accepted | KernelDataStructure/kds.c:216-248 | only values in [0, 1000] are kept, at most one per token |
| Kds.AcceptedMembers | KernelDataStructure/kds.c:216-219 | a number is kept exactly when some token scans to it in range |
| Kds.AcceptedAppend | KernelDataStructure/kds.c:216-248 | the numbers kept from two runs of tokens are those of the first run, then those of the second |
| Kds.OddIndices | KernelDataStructure/kds.c:119-127 | since the radix tree stores each number at its own index, tagging odd indices tags exactly the odd values |
| Kds.Empty | KernelDataStructure/kds.c:49 | a freshly loaded module has 1001 clear bits and nothing stored |
| Kds.KdsModule.constructor | KernelDataStructure/kds.c:20-49 | before `kds_init` every structure is empty and all 1001 bits are clear |
| Kds.KdsModule.RbInsert | KernelDataStructure/kds.c:54-78 | the descent finds whether the value is present; `rb_insert` returns 0 in both cases; a present value leaves the tree unchanged, a new one makes it RbTree.Insert of the value |
| Kds.KdsModule.IngestToken | KernelDataStructure/kds.c:217-247 | one token stores its number in every structure if it is accepted, and changes nothing otherwise |
| Kds.KdsModule.StoreNumber | KernelDataStructure/kds.c:222-246 | an accepted number goes into the list, the tree, the hash table, the radix tree, the XArray and the bitmap |
| Kds.KdsModule.AddToCollections | KernelDataStructure/kds.c:222-235 | the list gains the number at its tail, the hash table one node, and the tree the key |
| Kds.KdsModule.AddToIndices | KernelDataStructure/kds.c:239-246 | the radix tree and the XArray gain the index and bit num is set; no other bit changes |
| Kds.KdsModule.RadixTagOdds | KernelDataStructure/kds.c:119-128 | the walk tags exactly the odd indices of the radix tree |
| Kds.KdsModule.XarrayTagOdds | KernelDataStructure/kds.c:168-176 | the walk marks exactly the XArray entries whose stored number is odd |
| Kds.KdsModule.IngestAll | KernelDataStructure/kds.c:216-248 | the strsep loop stores the accepted numbers of every token, in input order |
| Kds.KdsModule.Init | KernelDataStructure/kds.c:200-300 | `kds_init` stores the accepted numbers and then tags the odd entries of the radix tree and the XArray |
| Kds.KdsModule.BitmapZero | KernelDataStructure/kds.c:341 | `bitmap_zero` clears all 1001 bits |
| Kds.KdsModule.ListClear | KernelDataStructure/kds.c:314-317 | the delete loop empties the list |
| Kds.KdsModule.TreeErase | KernelDataStructure/kds.c:320-324 | erasing `rb_first` until none is left empties the tree |
| Kds.KdsModule.RadixClear | KernelDataStructure/kds.c:333-335 | deleting every index empties the radix tree and its tags |
| Kds.KdsModule.XarrayClear | KernelDataStructure/kds.c:186-194 | erasing every entry empties the XArray and its marks |
| Kds.KdsModule.Exit | KernelDataStructure/kds.c:304-344 | after `kds_exit` the list, tree, hash table, radix tree and XArray are empty and every bit is clear |
| Kds.Store | KernelDataStructure/kds.c:222-246 | storing numbers adds one list entry and one hash node per number, duplicates included; LoadedContents gives the key sets and the bitmap |
| Kds.LoadedContents | KernelDataStructure/kds.c:216-248 | after loading, the list is the accepted numbers in input order with duplicates; the tree, radix tree and XArray hold exactly the distinct accepted numbers, all in [0, 1000]; bit i is set exactly when i was accepted |
| Kds.Load | KernelDataStructure/kds.c:200-300 | loading leaves the stored contents of LoadedContents; the in-order tree walk lists the distinct accepted numbers in strictly ascending order; tags and marks sit exactly on the odd values |
| Kds.LoadedShape | KernelDataStructure/kds.c:253-290 | for a loaded state, the in-order walk is the distinct accepted numbers ascending, and the tags and marks are exactly the odd entries |
| S2fs.Read | SuperSimpleFileSystem/s2fs.c:160-176 | an offset past 13 (or negative, as size_t) reads 0 with the offset unchanged; otherwise the count is min(count, 13 - offset), a copy fault returns -EFAULT with the offset unchanged, and a success advances the offset by exactly the count, never past 13 |
| S2fs.ReadAtEndIsEof | SuperSimpleFileSystem/s2fs.c:164-165 | a read at offset 13 returns 0, end of file |
| S2fs.CatReadsRest | SuperSimpleFileSystem/s2fs.c:160-176 | repeated reads with any positive count from offset o yield exactly the rest of "Hello World!\n" and then EOF; from 0, the whole text |
| S2fs.OpenFile.constructor | SuperSimpleFileSystem/s2fs.c:156-158 | an opened file starts at offset 0 |
| S2fs.OpenFile.ReadFile | SuperSimpleFileSystem/s2fs.c:160-176 | the read returns what Read says and moves the offset accordingly; on success the buffer's first ret bytes are data[offset, offset + ret) and the rest is untouched; on 0 or -EFAULT nothing changes |
| S2fs.OpenFile.CopyToUser | SuperSimpleFileSystem/s2fs.c:170 | `copy_to_user` puts data[off, off + n) at the start of the buffer and leaves the rest |
| S2fs.OpenFile.WriteFile | SuperSimpleFileSystem/s2fs.c:178-180 | a write returns 0 and changes nothing |

## Left out

- Printing (`printf`, `pr_info`, `seq_printf`, `printk`) is not modelled. Commands return what they would print as values.
- Sockets, `mmap`, the userfaultfd syscall and its `ioctl` set-up, `poll` and `pthread_create` are kernel interfaces. The handshake is the value function `Dsm.Setup`; a fault is an `Event` handed to a method.
- `s2dsm_P2.c` never registers its region with UFFDIO_REGISTER, so its handler would not fire in practice. `Dsm.Session.HandleFault` models the handler step as if the region were registered: a fault is an input, not something the command loop's accesses raise. With the region registered, UFFDIO_COPY succeeds exactly on a page that holds no data yet; the page-table state is the per-page flag `present`, which the commands' accesses set. Other reasons the ioctl can fail (`ENOMEM`, a signal) are not modelled.
- Concurrency between the fault handler and the command loop is not modelled, nor are the perftop spinlock and the missing `spin_unlock` on the early returns of `insert_task_rbtree`. Each operation is modelled as running alone.
- Cross-process invalidation and page fetch exist only as "simulate for now" comments in `s2dsm_P2.c`. No remote protocol and no global single-writer invariant are modelled.
- Dsm.Session.CommandRead: an out-of-range or `-1` index reads `msi_array` out of bounds in the C code. The model leaves the directory unchanged instead of reproducing undefined behaviour. Dsm.Session.CommandWrite, Dsm.Session.SetModified and Dsm.Session.HandleFault do the same for their indices, and the fault handler treats an address outside the region as fatal.
- Dsm.Session.PageIndex: the C code stores the page index in an `int`. The model keeps the full unsigned quotient, which is the same for every address inside the region.
- Dsm.Session.CommandWrite: the message stands for what `scanf(" %1023[^\n]")` stored. Scanning the command, the page number and the message from standard input is not modelled.
- Uffd.Region.constructor: `page_size` comes from `sysconf`; the model fixes it at 4096. Parsing `num-pages` with `strtoul` is not modelled.
- Uffd.Region.HandleEvent: `fault_cnt` is a C `int`. The model counts with an unbounded natural number, so it does not model overflow after 2^31 faults.
- Uffd.RunProgram: `l` is a C `int`, so it requires the region to stay below 2^31 bytes.
- Uffd.Region.Madvise: only the present/missing state changes. The old bytes stay in the model, but they are never observed, because the next access refills the whole page.
- Uffd.Region.Touch: the stalled access and the handler thread are modelled as one call. The access resumes after the handler installs the page.
- Red-black colouring and rebalancing (`rb_insert_color`, `rb_erase`) change the tree's shape but not its keys or order, so the tree is an ordered binary tree. The hash tables are a multiset (kds) and a head-first list (perftop); bucketing is not modelled. The radix tree and the XArray are maps from index to stored number.
- PerfTop.Profiler.UpdateRbTree: the C code adds to `total_cpu_time` in the node. The model rebuilds the tree with `RbTree.Replace`, which has the same keys, shape and values. The task pointers of the top-tasks array are modelled as (pid, time) values.
- PerfTop.Profiler.EntryPickNextFair and PerfTop.Profiler.RetPickNextFair: `prev` is a parameter of the return handler and is not tied to the entry handler. In the C code, `ret_pick_next_fair` reads `prev` from the per-instance storage `ri->data` (perftop.c line 214), which `entry_pick_next_fair` never writes; only its size is set (line 243). The C code therefore charges whatever pointer that storage holds. The model lets `prev` be any value, so it covers that behaviour but does not say which task is charged.
- Every `kmalloc` failure path is not modelled: `add_start_time`, `create_task_info_node`, `rb_insert`'s `-ENOMEM`, `hash_insert`, `xarray_insert_num`, the list node in `kds_init`, and `kstrdup`. Memory release (`kfree`) is not modelled either.
- Kds.KdsModule.Init: `hash_lookup_and_print` and every print or print-tagged walk only print. `radix_tree_print_tagged` restarts its walk at a pointer value cast to an `int` (kds.c line 143). That is a printing bug outside the model.
- Kds.ScanInt: `sscanf("%d")` is modelled as the kernel's `vsscanf` does it. Leading white space is skipped: the characters the kernel's `isspace` accepts, 9 to 13, ' ' and 0xA0. An optional '-' is taken, at least one digit is required, and the digit prefix is converted and wrapped to a 32-bit `int`. A '+' sign is not accepted, as in the kernel.
- The kretprobe and proc-file registration of perftop, `rdtsc`, and the VFS plumbing of s2fs are not modelled. The VFS plumbing covers mount, superblock, inode and dentry creation, and registration. The clock values are parameters.
- S2fs.OpenFile.ReadFile: a failing `copy_to_user` is modelled as a user buffer shorter than the clamped count. A partial copy, and user memory that becomes unmapped, are not modelled.
- The other files of the repository are not part of this model: `s2dsm_P1b.c`, `CPUProfiler/Part1/perftop.c` and the socket and syscall samples.
