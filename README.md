# memallocator, modelled in Dafny

memallocator is a small Go program: `program <r|w> <size in MiB>`. It
allocates a block of `size` MiB with C's `malloc` and counts the non-zero
bytes among its first KiB. It then walks the block one page at a time:

- In write mode (`w`) it stores `0x42` at the first byte of every page.
- In read mode (`r`) it adds that byte to a `uint64` checksum.
- Every step adds the page size to a processed-bytes counter.
- Each time the counter reaches a multiple of 128 MiB, the program pauses until the operator presses Enter.

The page size is the operating system's, or 4096 when the system reports
none. Bad arguments end the run with exit status 1 before anything is
allocated.

The model has five modules:

- `Wrappers`: `Option` and `Result`.
- `DivMod`: lemmas about division and remainder.
- `Paging`: specification functions on sequences, with their lemmas:
  - the stride positions, the page count and the final counter;
  - the uint64 running sum and the exact page sum;
  - the stamped buffer of write mode;
  - the pause checkpoints;
  - the non-zero count.
- `Config`: argument validation, the page-size fallback, `min` and the mode description. These are pure functions.
- `Walker`: the imperative part.
  - The first-KiB scan and the page-stride walk run over an `array<Byte>`. The walk updates the array in place. Both are proved against the `Paging` functions.
  - `Run` strings the whole program together.
  - The run's environment comes in as parameters: the `strconv.Atoi` result, `os.Getpagesize()`, whether `malloc` succeeded and the bytes `malloc` left in the block.
  - The walk returns a ghost log of the counter values at which it paused.

## Model

| member | source | states |
|---|---|---|
| Config.Validate | main.go:20-37 | The arguments are accepted exactly when there are at least two user arguments, the mode is "r" or "w" and the size parsed to a positive integer. An accepted configuration carries that size, and write mode is chosen exactly for "w". Too few arguments is reported exactly when there are fewer than two. A bad mode is reported exactly when there are enough arguments and the mode is neither "r" nor "w". |
| Config.EffectivePageSize | main.go:40-43 | The page size is always positive. It is the operating system's value when that is positive, and 4096 otherwise. |
| Config.Min | main.go:140-145 | The result is at most each argument and equals one of them, so it is the smaller argument. |
| Config.ModeDescription | main.go:117-122 | The mode is described as writing exactly when it is "w". Every other string is described as reading. |
| Walker.ScanFirstKiB | main.go:58-63 | The count is the number of non-zero bytes among the first min(1024, size) bytes, so it is at most min(1024, size). The buffer is only read. |
| Walker.TouchPage | main.go:78-82 | Write mode stores 0x42 at index i, changes nothing else and keeps the checksum. Read mode leaves the buffer unchanged and adds the byte at i to the checksum with uint64 wrap-around. |
| Walker.Walk | main.go:72-98 | The visited indices, in order, are `Strides(size, pageSize, 0)`. There are ceil(size / pageSize) of them. Write mode leaves exactly `Stamped(original, pageSize)` and checksum 0. Read mode leaves the buffer unchanged, and the checksum is the wrapped sum of the visited bytes. The counter ends at `Covered(size, pageSize)`. The pause log holds, in order, every counter value that was a multiple of 128 MiB. |
| Walker.WalkedStep | main.go:77-97 | One visit at a stride position below size advances the walk's state to the next stride position. That state is: the positions behind it visited in order, the pause log matching the counter, the write-mode stamp below the position and the read-mode running sum. |
| Walker.WalkedDone | main.go:77 | Once the position passes the end of the block, the visited list is the whole stride sequence and the counter is `Covered`. The buffer is the stamped buffer (write mode) or the original (read mode). |
| Walker.ExitStatus | main.go:20-37 | The exit status is 0 exactly for a completed run and 1 exactly for refused arguments. |
| Walker.Run | main.go:19-115 | malloc is called exactly when validation accepts. Refused arguments give that error. A failed malloc gives the allocation failure. Otherwise the run completes with the validated settings and a size of sizeMB MiB. It reports the non-zero count of the first KiB of malloc's bytes and the final counter `Covered(size, pageSize)`. The pause log matches that counter. Read mode reports `PageSum`, the exact unwrapped sum, and leaves the memory as malloc returned it. Write mode prints no checksum and leaves the stamped memory. |
| Paging.IsStrideMod | main.go:77 | The positions the walk's increment can reach are exactly the multiples of the page size. |
| Paging.IsStrideMultiple | main.go:77 | Every k * pageSize is such a position. |
| Paging.NoStrideBetween | main.go:77 | No position lies strictly between two consecutive ones. |
| Paging.PagesIsCeiling | main.go:77 | The page count is ceil(size / pageSize). |
| Paging.CoveredBounds | main.go:72-84 | The final counter is pages * pageSize. It is at least size and less than size + pageSize. |
| Paging.FinalCounter | main.go:77-84 | A stride position that is at least size and less than size + pageSize is the final counter. |
| Paging.StridesAdvance | main.go:77 | Visiting position i moves it from the positions still ahead to those behind, in order. |
| Paging.StridesLength | main.go:77 | The walk makes exactly ceil(size / pageSize) steps. |
| Paging.StridesAt | main.go:77 | Step k visits index k * pageSize. |
| Paging.StridesAscending | main.go:77 | The visited indices are strictly ascending. |
| Paging.StridesMembers | main.go:77 | An index is visited exactly when it is a stride position below size. |
| Paging.StridesAreMultiples | main.go:77 | An index is visited exactly when it is below size and a multiple of pageSize. |
| Paging.SampleSumBound | main.go:81 | Each sampled byte adds at most 255 to the exact sum. |
| Paging.AddUint64Wraps | main.go:73-81 | uint64 addition of two uint64 values is addition modulo 2^64 and yields a uint64. |
| Paging.WrappedSumAppend | main.go:81 | Sampling one more index adds its byte to the running checksum with wrap-around. |
| Paging.WrappedSumIsModSum | main.go:73-81 | The running uint64 checksum equals the exact sum of the sampled bytes modulo 2^64. |
| Paging.PageSumBound | main.go:73-81 | The exact sum of one byte per page is at most 255 * ceil(size / pageSize). |
| Paging.PageSumFitsUint64 | main.go:56-81 | For a block of at most 2^31 bytes the checksum never wraps, so it equals the exact page sum. |
| Paging.StampStep | main.go:79 | Storing 0x42 at the stride position i extends the stamped prefix by one page and leaves the rest unchanged. |
| Paging.StampedBelowAll | main.go:77-79 | Once the prefix covers the block, the buffer is the stamped buffer. |
| Paging.StampedFootprint | main.go:77-79 | In the stamped buffer a byte is 0x42 exactly where the walk visited, that is at multiples of pageSize. Every other byte keeps its original value. |
| Paging.StampedAtPage | main.go:79 | buffer[k * pageSize] is 0x42 for every k with k * pageSize inside the block. |
| Paging.PausesMembers | main.go:84-86 | A pause happens at counter value x exactly when the counter reaches x and x is a multiple of 128 MiB. |
| Paging.PauseCountDefaultPage | main.go:84-86 | With 4 KiB pages, a counter that reaches c has paused c / 128 MiB times. |
| Paging.PagesForSize | main.go:77 | With 4 KiB pages a block of sizeMB MiB takes sizeMB * 256 steps. |
| Paging.CoveredForSize | main.go:84 | A block of whole MiB is page-aligned, so the counter ends exactly at its size. |
| Paging.PausesForSize | main.go:84-86 | A block of sizeMB MiB with 4 KiB pages pauses sizeMB / 128 times. |
| Paging.PauseCountForSize | main.go:77-97 | All three facts for a run with sizeMB MiB and 4 KiB pages: sizeMB * 256 steps, a final counter of sizeMB MiB and sizeMB / 128 pauses. |
| Paging.OneMebibyteWalk | main.go:77-97 | A 1 MiB run with 4 KiB pages makes 256 steps, processes 1048576 bytes and never pauses; in write mode each of the 256 visited bytes becomes 0x42. |
| Paging.NonZeroCountIsCardinality | main.go:58-63 | The non-zero count is the number of positions holding a non-zero byte. |
| Paging.NonZeroCountBound | main.go:58-63 | The non-zero count is at most the number of bytes scanned. |
| Paging.NonZeroCountZero | main.go:58-63 | The count is zero exactly when every scanned byte is zero. |

## Left out

- The `malloc`/`free` calls and the `[1 << 31]byte` view (main.go:50-56) are not modelled as code.
  - `Run` takes `mallocOk` and the bytes `malloc` left in the block as parameters.
  - `Walk` receives the block as an already-allocated array.
- Walker.Run: requires `sizeMB <= 2048`, but only for accepted arguments with a successful malloc, because the `[1 << 31]byte` view admits at most 2^31 bytes. The source does not check this. When malloc returns a larger block, the slice expression at main.go:56 panics, and the model does not include that panic. When malloc returns nil, the run ends in the "malloc failed" panic at main.go:51-52 before the slice is reached, and the model covers that as `AllocationFailed`. Refused arguments are modelled for every parsed size.
- Walker.Walk: requires `size + pageSize` to fit Go's 64-bit `int`, so the loop index and the counter never overflow. The source does not check this. For accepted arguments with a successful malloc, Walker.Run passes the bound on as a requirement on the page size reported by the operating system.
- Walker.ExitStatus: the status 2 for a failed allocation is what Go's runtime uses for an unrecovered `panic`. It is not written in main.go, and the model assigns it only as a convention.
- `strconv.Atoi` (main.go:33) and `os.Getpagesize` (main.go:40) are not modelled; their results are inputs (`parsedSize`, `osPageSize`).
- `printMemStats` (main.go:124-134) is left out: it is a foreign call into Go's runtime.
- The wait for Enter (main.go:69, 96, 114, 136-138) is left out. The walk records the counter value of each pause in a ghost log instead.
- Time measurement, and the percentage and throughput output (main.go:71, 87-92, 100-106), are left out: they are wall-clock values and floating point.
- The printed text (main.go:21-23, 29, 35, 45-48, 64, 68, 90-94, 102-110) is left out. The model keeps only the data those lines show: the mode description, the non-zero count, the final counter and the read-mode checksum. The texts themselves are presentation.
- Config.Validate: the usage message says the program needs two arguments. The code compares the length of the whole argument vector with 3, so `args` in the model includes the program name.
