# mem_storage in Dafny

A model of `mem_storage`, a header-only C++ library that shares one array of
values between processes through a named POSIX shared-memory segment. The
segment starts with a 64-byte `ShmHeader` (ready magic, element count,
element size, 2 MiB-aligned file size). After the header come the
`PaddedValue<T>` cells, one per cache line, each guarded by a spin lock
with exponential back-off that lets the caller in anyway after one round of
failed loads. `MemoryStorage<T>::build` attaches a process to the segment. It joins a
ready segment of the same element size, or it creates and publishes a new
one, retrying on corrupt segments and on creation races.

The model has six modules:

- `Layout` covers the 64-bit size arithmetic. That is `align_to_huge_page`,
  the size of a padded cell, the offset of cell `i` and the creation size.
- `SpinLock` holds `PaddedValue<T>` as a class with `Lock`/`Unlock`. The pure
  specification `LockSpec` defines the spin with exponential back-off.
  Other processes are an oracle of stores into the flag, one before each
  atomic access.
- `DataView` holds `SharedDataView<T>`: where cell 0 starts, and locked access
  to one cell.
- `ShmNamespace` is the operating system as the storage sees it. It holds the
  namespace (a map from name to object with a size and a header), descriptors,
  mappings and `errno`. Each system call is a method whose failure is a
  parameter. A ghost log records the calls in order.
- `MemoryStorage` holds the storage class: `try_join_existing`,
  `try_create_new` and `build`. Each is specified by a pure function of the
  namespace and of the faults that occur (`JoinSpec`, `CreateSpec`, `Attempt`,
  `BuildLoop`), with lemmas about whole scenarios.
- `Wrappers` provides `Option`.

## Model

| member | source | states |
|---|---|---|
| Layout.AlignToHugePage | lib/lib.hpp:41-43 | the result is a multiple of 2 MiB; when the addition does not wrap it is at least `size` and less than `size` + 2 MiB |
| Layout.AlignIsLeastMultiple | lib/lib.hpp:41-43 | no multiple of 2 MiB that is at least `size` is smaller than the result |
| Layout.AlignIdempotent | lib/lib.hpp:41-43 | aligning an aligned size changes nothing, even when the first addition wrapped |
| Layout.AlignZero | lib/lib.hpp:41-43 | size 0 aligns to 0 |
| Layout.CellSize | lib/lib.hpp:48-52 | `sizeof(PaddedValue<T>)` is a multiple of 64, holds the flag byte padded to `alignof(T)` plus `T`, and adds less than one cache line of padding |
| Layout.CreationSize | lib/lib.hpp:252-253 | defined exactly when header plus cells, rounded up, fits in 64 bits; it then equals the source's computation, and every cell below `count` ends inside it |
| Layout.CellOffset | lib/lib.hpp:100-106 | cell `i` lies `sizeof(ShmHeader) + i` cells into the segment: never inside the header, and on a cache-line boundary when cells are whole cache lines |
| Layout.CreationSizeAsWritten | lib/lib.hpp:252-253 | the source's 64-bit size computation, wrap included: always a multiple of 2 MiB, and large enough for the header and every cell when nothing wraps |
| Layout.CellEndsBeforeArrayEnd | lib/lib.hpp:100-102 | cell `i < count`, at header size + `i` cells, ends no later than header plus `count` cells |
| Layout.CreationSizeWrapCounterexample | lib/lib.hpp:252-253 | as written, `count` = 2^58 with 64-byte cells yields a 2 MiB segment while the last cell lies far beyond it |
| SpinLock.DelayNeverWraps | lib/lib.hpp:57-66 | doubling the `uint8_t` delay below 128 never wraps and yields the next back-off delay |
| SpinLock.Spin | lib/lib.hpp:58-67 | a round that gives up has paused `256 - delay` times, and it consumes peer stores only |
| SpinLock.SpinGivesUpWhenAlwaysSet | lib/lib.hpp:58-67 | a round whose every load sees the flag set gives up after `256 - delay` pauses |
| SpinLock.LockSpec | lib/lib.hpp:55-73 | `lock()`: back-off rounds until an exchange finds the flag clear (acquired) or a round gives up (not acquired); at least one round, and it consumes only peer stores |
| SpinLock.PeersCanStallLock | lib/lib.hpp:56-72 | peers that clear the flag for each load and take it before each exchange add a round per two stores and no pause, and leave the call where it was: the outer loop has no bound |
| SpinLock.LockForcedWhenAlwaysSet | lib/lib.hpp:55-73 | `lock()` on a flag observed set at every poll returns false after exactly 1 + 2 + ... + 128 = 255 pauses |
| SpinLock.LockUncontended | lib/lib.hpp:55-73 | `lock()` on a clear flag nobody touches returns true at once, with no pause |
| SpinLock.ForcedLockPausesAtLeastOneRound | lib/lib.hpp:55-73 | a `lock()` that returns false has paused at least 255 times |
| SpinLock.PaddedValue.Lock | lib/lib.hpp:55-73 | returns what `LockSpec` says for the flag and peer stores it started with (acquired, pauses), and leaves the flag set |
| SpinLock.PaddedValue.SpinRound | lib/lib.hpp:57-67 | one back-off round: saw-clear, peer stores consumed and pauses are those of `Spin`; the flag is set exactly when it gave up |
| SpinLock.PaddedValue.Exchange | lib/lib.hpp:69 | the exchange returns the flag after the peer's store and leaves it set |
| SpinLock.PaddedValue.Unlock | lib/lib.hpp:75-77 | clears the flag, whatever `lock()` returned |
| DataView.SharedDataView.Init | lib/lib.hpp:100-102 | the data pointer is the base address plus `sizeof(ShmHeader)` |
| DataView.SharedDataView.CellAddress | lib/lib.hpp:101-106 | cell `i` sits at the base plus the layout's offset of cell `i`, never before the data pointer |
| DataView.SharedDataView.DangerousAccess | lib/lib.hpp:105-112 | the accessor runs once on the cell's old value; `is_dangerous` is exactly "lock() returned false"; the flag is clear afterwards |
| DataView.SharedDataView.DangerousAccessUnflagged | lib/lib.hpp:113-117 | the accessor runs once on the cell's old value and the flag is clear afterwards |
| ShmNamespace.NoEarlyPublish | lib/lib.hpp:277-284 | the creator's stores leave the published header, and the magic reads ready after all six stores and after no proper prefix of them |
| ShmNamespace.CreatorStores | lib/lib.hpp:277-284 | the creator's six header stores; the magic is stored once, last, right after the release fence |
| ShmNamespace.ShmSystem.ShmOpen | lib/lib.hpp:169-176 | exclusive open of an existing name fails with EEXIST; plain open of a missing name fails with ENOENT; otherwise a fresh descriptor, and an exclusive open adds an empty object |
| ShmNamespace.ShmSystem.Ftruncate | lib/lib.hpp:255 | sets the object's size, or fails with the given errno and changes nothing |
| ShmNamespace.ShmSystem.Mmap | lib/lib.hpp:160-164 | a fresh address mapping the descriptor's object, or 0 with the errno and no new mapping |
| ShmNamespace.ShmSystem.ShmUnlink | lib/lib.hpp:197-199 | removes the name; descriptors and mappings stay |
| ShmNamespace.ShmSystem.Munmap | lib/lib.hpp:194 | removes the mapping at the address; the namespace, descriptors and `errno` stay |
| ShmNamespace.ShmSystem.Close | lib/lib.hpp:182 | removes the descriptor; the namespace, mappings and `errno` stay |
| ShmNamespace.ShmSystem.StoreHeader | lib/lib.hpp:277-284 | one store into the object's header through the mapping, applied to the header as stored; nothing else changes |
| ShmNamespace.ShmSystem.PeerCreates | lib/lib.hpp:245 | another process's exclusive create: its object appears under the name, which was free |
| MemoryStorage.FirstReady | lib/lib.hpp:189-203 | the first poll at or after `k` that reads the magic, or none when no poll up to 2000 does |
| MemoryStorage.JoinSpec | lib/lib.hpp:168-240 | FILE_NOT_FOUND exactly for a missing name or ENOENT; DATA_CORRUPT exactly when no poll reads the magic, and only it removes the name; otherwise the first ready header decides: TYPE_MISMATCH exactly when its element size differs, SUCCESS exactly when it matches and one of the two mappings works; SYSTEM_ERROR exactly for a failed open, header mapping or both full mappings; an object not yet sized reads as not ready |
| MemoryStorage.JoinAsWritten | lib/lib.hpp:168-190 | as written, the join is killed exactly when it opens and maps an object of size 0 and reads its magic; otherwise it ends as `JoinSpec` |
| MemoryStorage.EmptySegmentKillsJoiner | lib/lib.hpp:186-199 | on a name just created and not yet sized, the join as written is killed, while `JoinSpec` reports DATA_CORRUPT and unlinks it |
| MemoryStorage.CreateSpec | lib/lib.hpp:243-293 | an existing name gives EEXIST; success exactly when the size fits, the name is new and open, truncate and one mapping succeed; success adds the sized object with the published header; failure leaves the namespace unchanged |
| MemoryStorage.Attempt | lib/lib.hpp:305-336 | returns (joined) exactly on join success; throws on type mismatch; retries on DATA_CORRUPT or on an EEXIST create; returns (created) on a create success; throws on any other create failure |
| MemoryStorage.BuildLoop | lib/lib.hpp:304-339 | at most three attempts; the timeout is thrown only after all three; never the root error |
| MemoryStorage.BuildSpec | lib/lib.hpp:298-340 | the root error exactly when not root, with nothing touched; otherwise one to three attempts, all three when it times out |
| MemoryStorage.CreateThenJoin | lib/lib.hpp:206-232 | a segment one process creates is joined by the next of the same type, which reads back the creator's count, element size and file size |
| MemoryStorage.CreatedSegmentHoldsAllCells | lib/lib.hpp:252-280 | a created object's size is its header's aligned size, a multiple of 2 MiB, and holds every announced cell |
| MemoryStorage.FreshNameIsCreated | lib/lib.hpp:306-326 | with a fresh name and no failures, `build` creates on the first attempt |
| MemoryStorage.PublishedSegmentIsJoined | lib/lib.hpp:306-310 | a sized, published segment of the same element size is joined on the first attempt and the namespace does not change |
| MemoryStorage.ForeignTypeIsRejected | lib/lib.hpp:306-314 | a ready segment of another element size throws the mismatch and stays |
| MemoryStorage.StaleSegmentIsReplaced | lib/lib.hpp:304-326 | a segment never published, or never even sized, is unlinked, and the next attempt creates a fresh one in its place |
| MemoryStorage.LosingCreatorRetries | lib/lib.hpp:324-333 | a creator beaten by a peer retries, and the peer's object stays as the peer made it |
| MemoryStorage.BuildTouchesOnlyItsName | lib/lib.hpp:298-340 | `build` neither adds, removes nor changes any other name |
| MemoryStorage.TimeoutIffEveryAttemptRetries | lib/lib.hpp:304-339 | the contention timeout is thrown exactly when all three attempts retry |
| MemoryStorage.WaitForMagic | lib/lib.hpp:189-203 | reports ready exactly when some poll up to 2000 reads the magic, and then the first such poll |
| MemoryStorage.WriteHeaderFields | lib/lib.hpp:277-280 | the header holds count, element size and aligned size, and a zero magic |
| MemoryStorage.PublishHeader | lib/lib.hpp:277-284 | the header is the published one, written by the creator's stores in order with the magic last |
| MemoryStorage.MemoryStorage.constructor | lib/lib.hpp:135-141 | no descriptor, no mapping, size 0, a view with no data pointer |
| MemoryStorage.MemoryStorage.MapMemorySegment | lib/lib.hpp:155-165 | a shared mapping of the whole descriptor, huge pages on request; 0 exactly on failure |
| MemoryStorage.MemoryStorage.MapWithFallback | lib/lib.hpp:219-230 | huge pages first, plain pages exactly once when that fails; 0 only when both fail |
| MemoryStorage.MemoryStorage.TryJoinExisting | lib/lib.hpp:168-240 | result and namespace as `JoinSpec`; no descriptor means nothing changed; any failure leaves no descriptor open and no mapping behind, and corrupt or mismatch closes the descriptor without resetting it; success maps the header's size and points the view past the header |
| MemoryStorage.MemoryStorage.AwaitReadyAndMap | lib/lib.hpp:186-239 | the join after the header mapping: same outcomes, with the temporary mapping always released |
| MemoryStorage.MemoryStorage.TryCreateNew | lib/lib.hpp:243-293 | result, namespace and errno as `CreateSpec`; on success open, truncate, map, header stores in order, and the view past the header; a failure after the open ends with the name unlinked |
| MemoryStorage.MemoryStorage.SizeMapAndPublish | lib/lib.hpp:255-292 | truncate, map with fallback, publish the header; on failure close and unlink |
| MemoryStorage.MemoryStorage.AttemptOnce | lib/lib.hpp:305-336 | step and namespace as `Attempt`; a joined or created step leaves the segment open, mapped and viewed |
| MemoryStorage.MemoryStorage.Build | lib/lib.hpp:298-340 | outcome and namespace as `BuildSpec`; joined or created leaves the segment open and mapped with the view inside it; created leaves the published header of the requested count, and every requested cell's address lies inside the mapping |

## Left out

- Real system calls, `errno` as a global, and `strerror`. They are the
  `ShmSystem` methods, with the failure of each call passed in as a value.
- Atomics, memory orderings, fences and `volatile`. Other processes appear
  only as oracles: stores into a lock flag, header values read by the join's
  polls, and an object created under the name between a join and a create.
  The release fence is modelled as a store in program order, so the publish
  order holds in program order only.
- `pause` and `sleep_for` timing. Pauses are counted and polls numbered; the
  10 ms sleep before a retry is not modelled.
- The `geteuid()` root check is the boolean `isRoot`.
- `log_msg`, timestamps and message formatting.
- The destructor (lib/lib.hpp:346-355) is not part of this model. After
  TYPE_MISMATCH, DATA_CORRUPT or a SYSTEM_ERROR past the open (the closes at
  lib/lib.hpp:182, 195, 213 and 227) the model keeps the closed descriptor in
  `shmFd`, as the source does, so a destructor would close it a second time.
- The cell contents of a segment are not tied to the namespace object; only
  the header is.
- src/main.cpp is not part of this model: a demo calling an older API.
- SpinLock.PaddedValue.Lock: the peer oracle gives one store per atomic
  access, so interleavings finer than that are not represented. The oracle
  is finite, so every modelled call ends; the source's outer loop has no
  bound, and peers that keep winning the exchange keep the caller looping
  (`SpinLock.PeersCanStallLock`).
- SpinLock.LockSpec: ends because the peer stores run out, not because
  `lock()` bounds its rounds; see the line above.
- DataView.SharedDataView.DangerousAccess: requires `idx` to be a valid cell.
  The source does not check it, and an out-of-range index is undefined
  behaviour there. The view's `cells` are the objects it was constructed
  with, not the segment's memory: `init` sets only the data pointer, and
  neither the cells nor their number are tied to the header's element
  count, so no lemma follows a `build` into an access. What `build`
  promises about the cells is their addresses (`MemoryStorage.MemoryStorage.Build`).
- MemoryStorage.JoinSpec: the element count and size are read from the same
  poll that saw the magic. A write between that poll and the field reads is
  not represented.
- MemoryStorage.MemoryStorage.TryCreateNew: rejects a size overflow with
  EOVERFLOW before opening anything (see Findings); the source opens first.
  `MemoryStorage.CreateSpec` (its EEXIST clause holds only when the size
  fits), `MemoryStorage.Attempt` and `MemoryStorage.BuildSpec` carry the
  same order.
- MemoryStorage.MemoryStorage.TryJoinExisting: follows the corrected join
  of `MemoryStorage.JoinSpec`, which reads an object of size 0 as not ready;
  the source reads its magic at lib/lib.hpp:190 and the process is killed
  (see Findings). The same holds for
  `MemoryStorage.MemoryStorage.AwaitReadyAndMap` and
  `MemoryStorage.StaleSegmentIsReplaced`.

## Findings

| source | as written | input that shows it | evidently intended | confidence | as-written member | corrected member |
|---|---|---|---|---|---|---|
| lib/lib.hpp:252-253 | `sizeof(ShmHeader) + sizeof(PaddedValue<T>) * count` and the 2 MiB round-up are computed in 64 bits without an overflow check | `count` = 2^58 with 64-byte cells: the product wraps to 0 and the segment is sized 2 MiB, while the header records 2^58 cells | reject a count whose segment size does not fit in 64 bits | not executed | Layout.CreationSizeWrapCounterexample | Layout.CreationSize |
| lib/lib.hpp:179-190 | the joiner maps 4096 bytes and reads `magic_num` without checking the object's size | a name a creator has opened with `O_CREAT \| O_EXCL` and not yet sized with `ftruncate` (lib/lib.hpp:245-255), or left so by dying there: the object has size 0, the `mmap` succeeds, and the read lies past its end, so the joiner gets SIGBUS | treat an object not yet sized like one not yet ready: wait for it and, if it stays so, report DATA_CORRUPT and unlink it | not executed | MemoryStorage.EmptySegmentKillsJoiner | MemoryStorage.JoinSpec |
